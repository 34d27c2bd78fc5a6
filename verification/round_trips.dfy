/**
 * Toggling twice: on the usual layouts the implementation resolver undoes
 * the spec resolver, and the toggle of the toggle is the original path.
 */
module RoundTrips {
  import opened Text
  import opened Types
  import opened PathResolver
  import opened Classification
  import opened PackProperties
  import opened StandardProperties

  /** `insertSpecSuffix` adds neither backslashes nor line terminators. */
  lemma InsertKeepsPlain(X: string)
    ensures '\\' !in X ==> '\\' !in InsertSpecSuffix(X)
    ensures NoLineBreak(X) ==> NoLineBreak(InsertSpecSuffix(X))
  {
    InsertSpecSuffixChars(X);
  }

  /** No Rails app directory name ends with `.rb`. */
  lemma RailsDirectoriesAreNotFiles()
    ensures forall d | d in RailsAppDirectories :: !EndsWith(d, ".rb")
  {
  }

  /** Adding `_spec` does not change whether a path maps back to `app/` or `lib/`. */
  lemma ImplementationBaseOfInsert(X: string)
    ensures ImplementationBase(InsertSpecSuffix(X)) == ImplementationBase(X)
  {
    if '/' in X {
      InsertKeepsDirWords(X);
    } else {
      InsertSegmentsOfName(X, "spec");
      InsertSpecSuffixShape(X);
      SpecSuffixIsRb(InsertSpecSuffix(X));
      RailsDirectoriesAreNotFiles();
    }
  }

  /** The segments of `d/X` are `d` and those of `X`. */
  lemma HeadSegments(d: string, X: string)
    requires '/' !in d
    ensures Split(d + "/" + X, '/') == [d] + Split(X, '/')
  {
    assert d + "/" + X == d + ['/'] + X;
    SplitFirst(d, X, '/');
  }

  /** `spec/Y` for a suffixed `Y` without `spec` or `packs` directories: a normalised path outside packs. */
  lemma SpecHeadPlain(X: string)
    requires '\\' !in X && NoLineBreak(X)
    requires "spec" !in Split(X, '/') && "packs" !in Split(X, '/')
    ensures var Y := InsertSpecSuffix(X);
      && Normalize("spec/" + Y) == "spec/" + Y && !IsPackFile("spec/" + Y)
      && NoLineBreak(Y) && "spec" !in Split(Y, '/')
  {
    var Y := InsertSpecSuffix(X);
    SuffixedClean(X);
    HeadSpelling("spec", "spec/", Y);
    PlainHeadPath("spec/" + Y, "spec", Y);
  }

  /** `d/X` for a directory `d` other than `packs`, with no backslash and no `packs` directory in `X`: normalised and outside every pack. */
  lemma PlainHeadPath(p: string, d: string, X: string)
    requires p == d + "/" + X
    requires '/' !in d && '\\' !in d && d != "packs"
    requires '\\' !in X && "packs" !in Split(X, '/')
    ensures Normalize(p) == p && !IsPackFile(p)
  {
    assert '\\' !in p;
    NormalizeFixed(p);
    HeadSegments(d, X);
    NotPackFile(p);
  }

  /** `spec/X_spec` goes back to `app/X` or `lib/X` by the first directory of `X`. */
  lemma SpecHeadBackward(X: string)
    requires '\\' !in X && NoLineBreak(X) && !EndsWith(X, "_spec.rb")
    requires "spec" !in Split(X, '/') && "packs" !in Split(X, '/')
    ensures ResolveImplementationPath("spec/" + InsertSpecSuffix(X)) == ImplementationBase(X) + X
  {
    var Y := InsertSpecSuffix(X);
    SpecHeadPlain(X);
    BackwardHead(Y);
    ImplementationBaseOfInsert(X);
    RemoveAfterInsert(X);
  }

  /**
   * `app/X` (a file under a Rails app directory, without further `app`,
   * `spec` or `packs` directories, not already a spec) goes to
   * `spec/X_spec`, and that goes back to `app/X`.
   */
  lemma AppRoundTrip(X: string)
    requires '\\' !in X && NoLineBreak(X) && !EndsWith(X, "_spec.rb")
    requires "app" !in Split(X, '/') && "spec" !in Split(X, '/') && "packs" !in Split(X, '/')
    requires Split(X, '/')[0] in RailsAppDirectories
    ensures ResolveSpecPath("app/" + X) == "spec/" + InsertSpecSuffix(X)
    ensures ResolveImplementationPath(ResolveSpecPath("app/" + X)) == "app/" + X
  {
    HeadSpelling("app", "app/", X);
    PlainHeadPath("app/" + X, "app", X);
    ForwardAppHead(X);
    SpecHeadBackward(X);
  }

  /**
   * `lib/X` (without `app`, `lib`, `spec` or `packs` directories, whose
   * first segment is not a Rails app directory, not already a spec) goes to
   * `spec/X_spec`, and that goes back to `lib/X`.
   */
  lemma LibRoundTrip(X: string)
    requires '\\' !in X && NoLineBreak(X) && !EndsWith(X, "_spec.rb")
    requires "app" !in Split(X, '/') && "lib" !in Split(X, '/')
    requires "spec" !in Split(X, '/') && "packs" !in Split(X, '/')
    requires Split(X, '/')[0] !in RailsAppDirectories
    ensures ResolveSpecPath("lib/" + X) == "spec/" + InsertSpecSuffix(X)
    ensures ResolveImplementationPath(ResolveSpecPath("lib/" + X)) == "lib/" + X
  {
    HeadSpelling("lib", "lib/", X);
    PlainHeadPath("lib/" + X, "lib", X);
    ForwardLibHead(X);
    SpecHeadBackward(X);
  }

  /**
   * A `lib/X` whose first directory is a Rails app directory does not come
   * back: its spec `spec/X_spec` resolves to `app/X`, since the spec path no
   * longer records whether the file was under `app/` or `lib/`.
   */
  lemma LibUnderAppDirectory(X: string)
    requires '\\' !in X && NoLineBreak(X) && !EndsWith(X, "_spec.rb")
    requires "app" !in Split(X, '/') && "lib" !in Split(X, '/')
    requires "spec" !in Split(X, '/') && "packs" !in Split(X, '/')
    requires Split(X, '/')[0] in RailsAppDirectories
    ensures ResolveSpecPath("lib/" + X) == "spec/" + InsertSpecSuffix(X)
    ensures ResolveImplementationPath(ResolveSpecPath("lib/" + X)) == "app/" + X
  {
    HeadSpelling("lib", "lib/", X);
    PlainHeadPath("lib/" + X, "lib", X);
    ForwardLibHead(X);
    SpecHeadBackward(X);
  }

  /**
   * An `app/X` whose first directory is not a Rails app directory does not
   * come back: its spec `spec/X_spec` resolves to `lib/X`.
   */
  lemma AppOutsideAllowlist(X: string)
    requires '\\' !in X && NoLineBreak(X) && !EndsWith(X, "_spec.rb")
    requires "app" !in Split(X, '/') && "spec" !in Split(X, '/') && "packs" !in Split(X, '/')
    requires Split(X, '/')[0] !in RailsAppDirectories
    ensures ResolveSpecPath("app/" + X) == "spec/" + InsertSpecSuffix(X)
    ensures ResolveImplementationPath(ResolveSpecPath("app/" + X)) == "lib/" + X
  {
    HeadSpelling("app", "app/", X);
    PlainHeadPath("app/" + X, "app", X);
    ForwardAppHead(X);
    SpecHeadBackward(X);
  }

  /**
   * `P/app/X` (a non-empty `P` that does not start with `app`, a file under
   * a Rails app directory without further `app`, `spec` or `packs`
   * directories) goes to `P/spec/X_spec`, and that goes back to `P/app/X`.
   */
  lemma AppInnerRoundTrip(P: string, X: string)
    requires P != "" && '\\' !in P && NoLineBreak(P) && Split(P, '/')[0] != "app" && "packs" !in Split(P, '/')
    requires '\\' !in X && NoLineBreak(X) && !EndsWith(X, "_spec.rb")
    requires "app" !in Split(X, '/') && "spec" !in Split(X, '/') && "packs" !in Split(X, '/')
    requires Split(X, '/')[0] in RailsAppDirectories
    ensures ResolveSpecPath(P + "/app/" + X) == P + "/spec/" + InsertSpecSuffix(X)
    ensures ResolveImplementationPath(ResolveSpecPath(P + "/app/" + X)) == P + "/app/" + X
  {
    AppInnerForward(P + "/app/" + X, P, X);
    AppInnerBackward(P + "/spec/" + InsertSpecSuffix(X), P, X);
  }

  /** `P/app/X` goes to `P/spec/X_spec`. */
  lemma AppInnerForward(p: string, P: string, X: string)
    requires p == P + "/app/" + X
    requires '\\' !in P && NoLineBreak(P) && Split(P, '/')[0] != "app" && "packs" !in Split(P, '/')
    requires '\\' !in X && "app" !in Split(X, '/') && "packs" !in Split(X, '/')
    ensures ResolveSpecPath(p) == P + "/spec/" + InsertSpecSuffix(X)
  {
    assert !IsPackFile(p) && Normalize(p) == p by {
      assert '\\' !in p;
      NormalizeFixed(p);
      Spellings(P, X, X);
      SegmentsAroundDir(P, "app", X);
      NotPackFile(p);
    }
    ForwardAppInner(P, X);
  }

  /** `P/spec/X_spec` goes back to `P/app/X` when `X` starts with a Rails app directory. */
  lemma AppInnerBackward(q: string, P: string, X: string)
    requires q == P + "/spec/" + InsertSpecSuffix(X)
    requires P != "" && '\\' !in P && NoLineBreak(P) && "packs" !in Split(P, '/')
    requires '\\' !in X && NoLineBreak(X) && !EndsWith(X, "_spec.rb")
    requires "spec" !in Split(X, '/') && "packs" !in Split(X, '/')
    requires Split(X, '/')[0] in RailsAppDirectories
    ensures ResolveImplementationPath(q) == P + "/app/" + X
  {
    var Y := InsertSpecSuffix(X);
    SuffixedClean(X);
    InnerSpecPlain(q, P, Y);
    BackwardInner(P, Y);
    ImplementationBaseOfInsert(X);
    RemoveAfterInsert(X);
    Spellings(P, X, Y);
  }

  /** Adding `_spec` adds no backslash, no line terminator and no `spec` or `packs` directory. */
  lemma SuffixedClean(X: string)
    requires '\\' !in X && NoLineBreak(X) && "spec" !in Split(X, '/') && "packs" !in Split(X, '/')
    ensures var Y := InsertSpecSuffix(X);
      '\\' !in Y && NoLineBreak(Y) && "spec" !in Split(Y, '/') && "packs" !in Split(Y, '/')
  {
    InsertKeepsPlain(X);
    InsertKeepsDirWords(X);
  }

  /** `P/spec/Y` with no backslash and no `packs` directory is normalised and outside every pack. */
  lemma InnerSpecPlain(q: string, P: string, Y: string)
    requires q == P + "/spec/" + Y
    requires '\\' !in P && "packs" !in Split(P, '/') && '\\' !in Y && "packs" !in Split(Y, '/')
    ensures !IsPackFile(q) && Normalize(q) == q
  {
    assert '\\' !in q;
    NormalizeFixed(q);
    Spellings(P, Y, Y);
    SegmentsAroundDir(P, "spec", Y);
    NotPackFile(q);
  }

  /**
   * `<prefix>packs/<name>/app/X` (a single pack directory, not already a
   * spec) goes to `<prefix>packs/<name>/spec/X_spec`, and that goes back.
   */
  lemma PackRoundTrip(prefix: string, name: string, X: string)
    requires prefix == "" || (EndsWith(prefix, "/") && NoLineBreak(prefix))
    requires name != "" && '/' !in name && name != "packs"
    requires '\\' !in prefix && '\\' !in name && '\\' !in X
    requires NoLineBreak(X) && !EndsWith(X, "_spec.rb") && "packs" !in Split(X, '/')
    ensures ResolveSpecPath(prefix + "packs/" + name + "/app/" + X)
      == prefix + "packs/" + name + "/spec/" + InsertSpecSuffix(X)
    ensures ResolveImplementationPath(ResolveSpecPath(prefix + "packs/" + name + "/app/" + X))
      == prefix + "packs/" + name + "/app/" + X
  {
    PackAppForward(prefix + "packs/" + name + "/app/" + X, prefix, name, X);
    PackSpecBackwardOfInsert(prefix, name, X);
  }

  /** The spec path of `<prefix>packs/<name>/app/X` goes back to it. */
  lemma PackSpecBackwardOfInsert(prefix: string, name: string, X: string)
    requires prefix == "" || (EndsWith(prefix, "/") && NoLineBreak(prefix))
    requires name != "" && '/' !in name && name != "packs"
    requires '\\' !in prefix && '\\' !in name && '\\' !in X
    requires NoLineBreak(X) && !EndsWith(X, "_spec.rb") && "packs" !in Split(X, '/')
    ensures ResolveImplementationPath(prefix + "packs/" + name + "/spec/" + InsertSpecSuffix(X))
      == prefix + "packs/" + name + "/app/" + X
  {
    var Y := InsertSpecSuffix(X);
    assert NoLineBreak(Y) && '\\' !in Y by {
      InsertKeepsPlain(X);
    }
    assert "packs" !in Split(Y, '/') by {
      InsertKeepsDirWords(X);
    }
    PackSpecBackward(prefix + "packs/" + name + "/spec/" + Y, prefix, name, Y);
    RemoveAfterInsert(X);
  }

  /** `<prefix>packs/<name>/app/X` goes to `<prefix>packs/<name>/spec/X_spec`. */
  lemma PackAppForward(p: string, prefix: string, name: string, X: string)
    requires p == prefix + "packs/" + name + "/app/" + X
    requires prefix == "" || (EndsWith(prefix, "/") && NoLineBreak(prefix))
    requires name != "" && '/' !in name && name != "packs"
    requires '\\' !in prefix && '\\' !in name && '\\' !in X
    requires NoLineBreak(X) && "packs" !in Split(X, '/')
    ensures ResolveSpecPath(p) == prefix + "packs/" + name + "/spec/" + InsertSpecSuffix(X)
  {
    var rest := "app/" + X;
    assert rest[4..] == X;
    assert PackSplit(Normalize(p), prefix, name, rest) && !HasDir(rest, "packs") by {
      HeadSpelling("app", "app/", X);
      PlainPackPath(prefix, name, "app", X);
      PackSpellings(prefix, name, X, X);
    }
    assert StartsWith(rest, "app/");
    PackForward(p, prefix, name, rest);
  }

  /** `<prefix>packs/<name>/spec/Y` goes to `<prefix>packs/<name>/app/Y` without the `_spec` suffix. */
  lemma PackSpecBackward(q: string, prefix: string, name: string, Y: string)
    requires q == prefix + "packs/" + name + "/spec/" + Y
    requires prefix == "" || (EndsWith(prefix, "/") && NoLineBreak(prefix))
    requires name != "" && '/' !in name && name != "packs"
    requires '\\' !in prefix && '\\' !in name && '\\' !in Y
    requires NoLineBreak(Y) && "packs" !in Split(Y, '/')
    ensures ResolveImplementationPath(q) == prefix + "packs/" + name + "/app/" + RemoveSpecSuffix(Y)
  {
    var rest := "spec/" + Y;
    assert rest[5..] == Y;
    assert PackSplit(Normalize(q), prefix, name, rest) && !HasDir(rest, "packs") by {
      HeadSpelling("spec", "spec/", Y);
      PlainPackPath(prefix, name, "spec", Y);
      PackSpellings(prefix, name, Y, Y);
    }
    assert StartsWith(rest, "spec/");
    PackBackward(q, prefix, name, rest);
  }

  /** `<prefix>packs/<name>/d/X` with a single pack directory is a normalised pack split. */
  lemma PlainPackPath(prefix: string, name: string, d: string, X: string)
    requires prefix == "" || (EndsWith(prefix, "/") && NoLineBreak(prefix))
    requires name != "" && '/' !in name && name != "packs"
    requires '\\' !in prefix && '\\' !in name && '\\' !in d && '\\' !in X
    requires '/' !in d && d != "packs" && NoLineBreak(d) && NoLineBreak(X) && "packs" !in Split(X, '/')
    ensures Normalize(prefix + "packs/" + name + "/" + (d + "/" + X)) == prefix + "packs/" + name + "/" + (d + "/" + X)
    ensures PackSplit(prefix + "packs/" + name + "/" + (d + "/" + X), prefix, name, d + "/" + X)
    ensures !HasDir(d + "/" + X, "packs")
  {
    var rest := d + "/" + X;
    var p := prefix + "packs/" + name + "/" + rest;
    assert Normalize(p) == p by {
      assert '\\' !in p;
      NormalizeFixed(p);
    }
    assert !HasDir(rest, "packs") by {
      HeadSegments(d, X);
      NotSegment(rest, "packs");
    }
  }

  /** The spellings of the standard paths the proofs meet are one string each. */
  lemma Spellings(P: string, X: string, Y: string)
    ensures "app/" + X == "app" + "/" + X && "spec/" + Y == "spec" + "/" + Y
    ensures P + "/app/" + X == P + "/" + "app" + "/" + X == P + "/" + "app/" + X
    ensures P + "/spec/" + Y == P + "/" + "spec" + "/" + Y
  {
  }

  /** The spellings of the pack paths the proofs meet are one string each. */
  lemma PackSpellings(prefix: string, name: string, X: string, Y: string)
    ensures prefix + "packs/" + name + "/app/" + X == prefix + "packs/" + name + "/" + ("app/" + X)
    ensures prefix + "packs/" + name + "/spec/" + Y == prefix + "packs/" + name + "/" + ("spec/" + Y)
  {
  }

  /** `d/` spelled as one literal is `d` followed by a slash. */
  lemma HeadSpelling(d: string, dslash: string, X: string)
    requires dslash == d + "/"
    ensures dslash + X == d + "/" + X
  {
  }
}
