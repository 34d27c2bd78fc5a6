/**
 * Properties of the two standard resolvers (paths outside packs): where the
 * greedy directory patterns match, and what each branch produces.
 */
module StandardProperties {
  import opened Text
  import opened Types
  import opened PathResolver
  import opened Classification

  // ---------------------------------------------------------------------
  // The greedy directory patterns

  /**
   * In `P + "/d/" + X`, with no line terminator in `P` and no further `d`
   * directory in `X`, the greedy `^(.*)\/d\/` ends its group right after `P`.
   */
  lemma GreedyAtDir(P: string, d: string, X: string)
    requires '/' !in d && NoLineBreak(P)
    requires !StartsWith(X, d + "/") && !Contains(X, "/" + d + "/")
    ensures GreedyPrefixEnd(P + "/" + d + "/" + X, "/" + d + "/") == Some(|P|)
  {
    var s := P + "/" + d + "/" + X;
    var pat := "/" + d + "/";
    var off := |P| + 1;
    assert s[|P|..|P| + |pat|] == pat;
    assert s[..|P|] == P;
    var t := s[off..];
    assert t == d + ['/'] + X;
    DelimitedAfterFirst(d, X, d, '/');
    assert !Contains(t, pat);
    forall k: nat | |P| < k <= |s|
      ensures !At(s, k, pat)
    {
      AtDrop(s, off, k - off, pat);
    }
  }

  /** `^(.*)\/d\/` rewrites the one `/d/` after a line-free `P` when `X` holds no further `d` directory. */
  lemma ReplaceLastDirAt(P: string, d: string, X: string, repl: string)
    requires '/' !in d && NoLineBreak(P)
    requires !StartsWith(X, d + "/") && !Contains(X, "/" + d + "/")
    ensures ReplaceLastDir(P + "/" + d + "/" + X, d, repl) == P + "/" + repl + "/" + X
  {
    var s := P + "/" + d + "/" + X;
    GreedyAtDir(P, d, X);
    assert s[..|P|] == P;
    assert s[|P| + |d| + 2..] == X;
  }

  /** `d/` heads `d + "/" + X`, and `/d/` occurs in it only if `X` has a `d` directory. */
  lemma LeadingDirOnly(d: string, X: string)
    requires '/' !in d
    ensures StartsWith(d + "/" + X, d + "/")
    ensures Contains(d + "/" + X, "/" + d + "/") <==> StartsWith(X, d + "/") || Contains(X, "/" + d + "/")
  {
    DelimitedAfterFirst(d, X, d, '/');
    assert (d + "/" + X)[..|d| + 1] == d + "/";
  }

  /** The segments of `P + "/d/" + X` are those of `P`, then `d`, then those of `X`. */
  lemma SegmentsAroundDir(P: string, d: string, X: string)
    requires '/' !in d
    ensures Split(P + "/" + d + "/" + X, '/') == Split(P, '/') + [d] + Split(X, '/')
  {
    var rest := d + ['/'] + X;
    assert P + "/" + d + "/" + X == P + ['/'] + rest;
    assert Split(rest, '/') == [d] + Split(X, '/') by {
      SplitFirst(d, X, '/');
    }
    SplitConcat(P, rest, '/');
  }

  /** `X` has no `d` directory when `d` is not one of its segments. */
  lemma NoDirInRest(X: string, d: string)
    requires '/' !in d && d !in Split(X, '/')
    ensures !StartsWith(X, d + "/") && !Contains(X, "/" + d + "/")
  {
    NotSegment(X, d);
  }

  // ---------------------------------------------------------------------
  // Implementation to spec

  /** The two rewrites of the `app` and `lib` branches on `d/X`: the leading `d/` becomes `spec/`. */
  lemma MoveLeadingDir(d: string, X: string)
    requires '/' !in d && d !in Split(X, '/')
    ensures ReplaceLeadingDir(ReplaceLastDir(d + "/" + X, d, "spec"), d, "spec") == "spec/" + X
  {
    NoDirInRest(X, d);
    LeadingDirOnly(d, X);
    GreedyPrefixEndOccurs(d + "/" + X, "/" + d + "/");
    assert (d + "/" + X)[|d| + 1..] == X;
  }

  /** The greedy pattern matches only where `pat` occurs. */
  lemma GreedyPrefixEndOccurs(s: string, pat: string)
    ensures GreedyPrefixEnd(s, pat).Some? ==> Contains(s, pat)
  {
    var r := GreedyPrefixEnd(s, pat);
    if r.Some? {
      assert At(s, r.value, pat);
    }
  }

  /**
   * The two rewrites of the `app` and `lib` branches on `P/d/X`: the last
   * `d` directory becomes `spec`, and the leading rewrite finds nothing when
   * `P` does not start with `d`.
   */
  lemma MoveInnerDir(P: string, d: string, X: string)
    requires '/' !in d && d !in Split(X, '/') && NoLineBreak(P)
    requires Split(P, '/')[0] != d
    ensures ReplaceLeadingDir(ReplaceLastDir(P + "/" + d + "/" + X, d, "spec"), d, "spec") == P + "/spec/" + X
  {
    NoDirInRest(X, d);
    ReplaceLastDirAt(P, d, X, "spec");
    LeadingDirUntouched(P, d, "spec/" + X);
    SpecDirGlue(P, X);
  }

  /** The three spellings of `P/spec/X` the proofs meet are one string. */
  lemma SpecDirGlue(P: string, X: string)
    ensures P + "/" + "spec" + "/" + X == P + "/" + ("spec/" + X) == P + "/spec/" + X
  {
  }

  /** `P + "/" + Y` does not start with `d/` when the first segment of `P` is not `d`. */
  lemma LeadingDirUntouched(P: string, d: string, Y: string)
    requires '/' !in d && Split(P, '/')[0] != d
    ensures ReplaceLeadingDir(P + "/" + Y, d, "spec") == P + "/" + Y
  {
    FirstSegmentOfConcat(P, Y);
    StartsWithSegment(P + "/" + Y, d);
  }

  /** `app/X` goes to `spec/X`, with the `_spec` suffix, when `X` has no further `app` directory. */
  lemma ForwardAppHead(X: string)
    requires "app" !in Split(X, '/')
    ensures ResolveStandardSpecPath("app/" + X) == "spec/" + InsertSpecSuffix(X)
  {
    assert "app/" + X == "app" + "/" + X;
    LeadingDirOnly("app", X);
    MoveLeadingDir("app", X);
    SuffixBehindPrefix("spec/", X);
  }

  /**
   * `app/X/app/Y`: both rewrites of the `app` branch apply, to the last
   * interior `/app/` and to the leading `app/`, so both directories become
   * `spec`; `X` itself is kept as it is.
   */
  lemma ForwardAppBoth(X: string, Y: string)
    requires NoLineBreak(X) && "app" !in Split(Y, '/')
    ensures ResolveStandardSpecPath("app/" + X + "/app/" + Y) == "spec/" + X + "/spec/" + InsertSpecSuffix(Y)
  {
    var P := "app/" + X;
    var n := P + "/app/" + Y;
    var m := P + "/spec/" + Y;
    assert HasDir(n, "app") by {
      assert n[..4] == "app/";
    }
    assert ReplaceLastDir(n, "app", "spec") == m by {
      assert NoLineBreak(P) by {
        assert forall c | c in P :: c in "app/" || c in X;
      }
      InnerSpelling(P, "app", "/app/", Y);
      NoDirInRest(Y, "app");
      ReplaceLastDirAt(P, "app", Y, "spec");
      SpecDirGlue(P, Y);
    }
    LeadingAppReplaced(X, "/spec/", Y);
    MovedWithApp(n, "spec/" + X + "/spec/" + Y);
    InsertBehindPrefix("spec/" + X + "/spec/", Y);
  }

  /** The leading `app/` of `app/X W Y` becomes `spec/`; the rest is kept. */
  lemma LeadingAppReplaced(X: string, W: string, Y: string)
    ensures ReplaceLeadingDir("app/" + X + W + Y, "app", "spec") == "spec/" + X + W + Y
  {
    var m := "app/" + X + W + Y;
    assert m[..4] == "app/" && m[4..] == X + W + Y;
  }

  /** The `app` branch: the spec path is the result of its two rewrites, with the suffix inserted. */
  lemma MovedWithApp(n: string, r: string)
    requires HasDir(n, "app")
    requires ReplaceLeadingDir(ReplaceLastDir(n, "app", "spec"), "app", "spec") == r
    ensures ResolveStandardSpecPath(n) == InsertSpecSuffix(r)
  {
  }

  /**
   * A path with a `spec/` directory and no `app` or `lib` segment is not
   * moved: only the `_spec` suffix is inserted.
   */
  lemma ForwardSpecPresent(n: string)
    requires "app" !in Split(n, '/') && "lib" !in Split(n, '/')
    requires StartsWith(n, "spec/") || Contains(n, "/spec/")
    ensures ResolveStandardSpecPath(n) == InsertSpecSuffix(n)
  {
    NotSegment(n, "app");
    NotSegment(n, "lib");
    assert HasDir(n, "spec") by {
      assert "spec" + "/" == "spec/" && "/" + "spec" + "/" == "/spec/";
    }
  }

  /**
   * `P/app/X` goes to `P/spec/X`, with the `_spec` suffix: the last `app`
   * directory becomes `spec`, when `X` has no further `app` directory and
   * `P` has no line terminator and does not start with `app`.
   */
  lemma ForwardAppInner(P: string, X: string)
    requires "app" !in Split(X, '/') && NoLineBreak(P) && Split(P, '/')[0] != "app"
    ensures ResolveStandardSpecPath(P + "/app/" + X) == P + "/spec/" + InsertSpecSuffix(X)
  {
    InnerSpelling(P, "app", "/app/", X);
    InnerDirPresent(P, "app", X);
    MoveInnerDir(P, "app", X);
    SuffixBehindPrefix(P + "/spec/", X);
  }

  /** `lib/X` goes to `spec/X`, with the `_spec` suffix, when `X` has no `app` or further `lib` directory. */
  lemma ForwardLibHead(X: string)
    requires "app" !in Split(X, '/') && "lib" !in Split(X, '/')
    ensures ResolveStandardSpecPath("lib/" + X) == "spec/" + InsertSpecSuffix(X)
  {
    var n := "lib/" + X;
    assert n == "lib" + "/" + X;
    assert !HasDir(n, "app") by {
      assert Split(n, '/') == ["lib"] + Split(X, '/') by {
        SplitFirst("lib", X, '/');
      }
      NotSegment(n, "app");
    }
    LeadingDirOnly("lib", X);
    MoveLeadingDir("lib", X);
    SuffixBehindPrefix("spec/", X);
  }

  /**
   * `P/lib/X` goes to `P/spec/X`, with the `_spec` suffix, when neither `P`
   * nor `X` has an `app` directory, `X` has no further `lib` directory, and
   * `P` has no line terminator and does not start with `lib`.
   */
  lemma ForwardLibInner(P: string, X: string)
    requires "app" !in Split(P, '/') && "app" !in Split(X, '/') && "lib" !in Split(X, '/')
    requires NoLineBreak(P) && Split(P, '/')[0] != "lib"
    ensures ResolveStandardSpecPath(P + "/lib/" + X) == P + "/spec/" + InsertSpecSuffix(X)
  {
    var n := P + "/" + "lib" + "/" + X;
    InnerSpelling(P, "lib", "/lib/", X);
    assert !HasDir(n, "app") by {
      SegmentsAroundDir(P, "lib", X);
      NotSegment(n, "app");
    }
    InnerDirPresent(P, "lib", X);
    MoveInnerDir(P, "lib", X);
    SuffixBehindPrefix(P + "/spec/", X);
  }

  /** The last slash of `D + "/" + F`, for a file name `F` without slashes, is the one after `D`. */
  lemma LastSlashBeforeFile(D: string, F: string)
    requires '/' !in F
    ensures LastIndexOf(D + "/" + F, '/') == Some(|D|)
  {
    var n := D + "/" + F;
    assert n[|D|] == '/';
    assert '/' in n;
    var k := LastIndexOf(n, '/').value;
    assert k <= |D| by {
      assert n[|D| + 1..] == F;
      assert n[k] in n[|D|..] || k < |D|;
    }
    assert k >= |D| by {
      assert n[|D|] in n[k..] || k >= |D|;
    }
  }

  /**
   * Outside `app`, `lib` and `spec` directories, `D/F` goes to `D/spec/F`,
   * with the `_spec` suffix: `spec` is inserted before the file name.
   */
  lemma ForwardOther(D: string, F: string)
    requires '/' !in F
    requires "app" !in Split(D + "/" + F, '/') && "lib" !in Split(D + "/" + F, '/')
    requires "spec" !in Split(D + "/" + F, '/')
    ensures ResolveStandardSpecPath(D + "/" + F) == D + "/spec/" + InsertSpecSuffix(F)
  {
    var n := D + "/" + F;
    NoStandardDirs(n);
    LastSlashBeforeFile(D, F);
    SpecBeforeFile(D, F);
    SuffixBehindPrefix(D + "/spec/", F);
  }

  /** A path without `app`, `lib` or `spec` segments has none of those directories. */
  lemma NoStandardDirs(n: string)
    requires "app" !in Split(n, '/') && "lib" !in Split(n, '/') && "spec" !in Split(n, '/')
    ensures !HasDir(n, "app") && !HasDir(n, "lib") && !HasDir(n, "spec")
  {
    NotSegment(n, "app");
    NotSegment(n, "lib");
    NotSegment(n, "spec");
  }

  /** `spec` inserted at the last slash of `D/F`. */
  lemma SpecBeforeFile(D: string, F: string)
    ensures (D + "/" + F)[..|D|] + "/spec" + (D + "/" + F)[|D|..] == D + "/spec/" + F
  {
    var n := D + "/" + F;
    assert n[..|D|] == D;
    assert n[|D|..] == "/" + F;
  }

  /** `P/d/X` spelled with `/d/` as one literal. */
  lemma InnerSpelling(P: string, d: string, dd: string, X: string)
    requires dd == "/" + d + "/"
    ensures P + dd + X == P + "/" + d + "/" + X
  {
  }

  /** `P/d/X` has a `d` directory. */
  lemma InnerDirPresent(P: string, d: string, X: string)
    ensures HasDir(P + "/" + d + "/" + X, d)
  {
    var n := P + "/" + d + "/" + X;
    assert n[|P|..|P| + |d| + 2] == "/" + d + "/";
    assert At(n, |P|, "/" + d + "/");
  }

  /** A bare file name `F` goes to `spec/F`, with the `_spec` suffix. */
  lemma ForwardBare(F: string)
    requires '/' !in F
    ensures ResolveStandardSpecPath(F) == "spec/" + InsertSpecSuffix(F)
  {
    NoDirWithoutSlash(F, "app");
    NoDirWithoutSlash(F, "lib");
    NoDirWithoutSlash(F, "spec");
    SuffixBehindPrefix("spec/", F);
  }

  /** A name without slashes has no directory at all. */
  lemma NoDirWithoutSlash(F: string, w: string)
    requires '/' !in F
    ensures !HasDir(F, w)
  {
    AbsentCharNoOccurrence(F, "/" + w + "/", 0);
    AbsentCharNoOccurrence(F, w + "/", |w|);
    EndsOccur(F, w + "/");
  }

  // ---------------------------------------------------------------------
  // Spec to implementation

  /** `^(.*)\/spec\/(.*)$` splits `P/spec/X` into `P` and `X` when `X` has no further `spec` directory. */
  lemma SpecSplitInner(P: string, X: string)
    requires NoLineBreak(P) && NoLineBreak(X) && "spec" !in Split(X, '/')
    ensures SpecSplit(P + "/spec/" + X) == Some((P, X))
  {
    var n := P + "/spec/" + X;
    NoDirInRest(X, "spec");
    assert GreedyPrefixEnd(n, "/spec/") == Some(|P|) by {
      SpecDirGlue(P, X);
      GreedyAtDir(P, "spec", X);
    }
    assert n[..|P|] == P;
    assert n[|P| + 6..] == X;
  }

  /** Without any `/spec/`, `^spec\/(.*)$` splits `spec/X` into an empty prefix and `X`. */
  lemma SpecSplitHead(X: string)
    requires NoLineBreak(X) && "spec" !in Split(X, '/')
    ensures SpecSplit("spec/" + X) == Some(("", X))
  {
    var n := "spec/" + X;
    assert n == "spec" + "/" + X;
    NoDirInRest(X, "spec");
    LeadingDirOnly("spec", X);
    assert "/" + "spec" + "/" == "/spec/" && "spec" + "/" == "spec/";
    assert !Contains(n, "/spec/");
    GreedyPrefixEndOccurs(n, "/spec/");
    assert n[5..] == X;
  }

  /**
   * `P/spec/X` goes back to `P/app/X` or `P/lib/X` by the first directory
   * of `X`, without the `_spec` suffix. An empty `P` (an absolute path
   * `/spec/X`) is falsy, so the leading slash is lost.
   */
  lemma BackwardInner(P: string, X: string)
    requires NoLineBreak(P) && NoLineBreak(X) && "spec" !in Split(X, '/')
    ensures ResolveStandardImplementationPath(P + "/spec/" + X)
      == (if P == "" then "" else P + "/") + ImplementationBase(X) + RemoveSpecSuffix(X)
  {
    var n := P + "/spec/" + X;
    assert HasDir(n, "spec") && SpecSplit(n) == Some((P, X)) by {
      SpecDirGlue(P, X);
      InnerDirPresent(P, "spec", X);
      SpecSplitInner(P, X);
    }
    BackwardFromSplit(n, P, X);
  }

  /** What the standard backward resolver makes of a split into `P` and `X` by the spec patterns. */
  lemma BackwardFromSplit(n: string, P: string, X: string)
    requires HasDir(n, "spec") && SpecSplit(n) == Some((P, X))
    ensures ResolveStandardImplementationPath(n)
      == (if P == "" then "" else P + "/") + ImplementationBase(X) + RemoveSpecSuffix(X)
  {
    var base := ImplementationBase(X);
    BaseEndsWithSlash(X);
    var head := if P == "" then base else P + "/" + base;
    assert head[|head| - 1] == base[|base| - 1];
    RemoveBehindPrefix(head, X);
    assert ResolveStandardImplementationPath(n) == RemoveSpecSuffix(head + X);
    if P == "" {
      assert "" + base == base;
    }
  }

  /** Both directories a spec maps back to end with a slash. */
  lemma BaseEndsWithSlash(X: string)
    ensures |ImplementationBase(X)| == 4 && ImplementationBase(X)[3] == '/'
  {
  }

  /** `spec/X` goes back to `app/X` or `lib/X` by the first directory of `X`, without the `_spec` suffix. */
  lemma BackwardHead(X: string)
    requires NoLineBreak(X) && "spec" !in Split(X, '/')
    ensures ResolveStandardImplementationPath("spec/" + X) == ImplementationBase(X) + RemoveSpecSuffix(X)
  {
    var n := "spec/" + X;
    assert n == "spec" + "/" + X;
    LeadingDirOnly("spec", X);
    SpecSplitHead(X);
    BackwardFromSplit(n, "", X);
  }

  /** Without a `spec` directory only the `_spec` suffix is removed. */
  lemma BackwardNoSpecDir(n: string)
    requires "spec" !in Split(n, '/')
    ensures ResolveStandardImplementationPath(n) == RemoveSpecSuffix(n)
  {
    NotSegment(n, "spec");
  }
}
