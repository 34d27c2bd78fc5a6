/**
 * The spec template of `generateSpecContent`: it describes exactly the
 * inferred constant, and a spec and its implementation are described alike.
 */
module SpecContent {
  import opened Text
  import opened PathResolver
  import opened Classification
  import opened FileCreator
  import opened ClassNameProperties
  import opened RoundTrips

  /** Text between a fixed header and a fixed footer is determined by the whole. */
  lemma FramedEqual(h: string, a: string, b: string, f: string)
    ensures h + a + f == h + b + f <==> a == b
  {
    if h + a + f == h + b + f {
      assert |a| == |b|;
      forall i | 0 <= i < |a|
        ensures a[i] == b[i]
      {
        assert a[i] == (h + a + f)[|h| + i];
        assert b[i] == (h + b + f)[|h| + i];
      }
    }
  }

  /**
   * Two generated specs are equal exactly when they describe the same
   * constant: the template adds nothing that depends on the path.
   */
  lemma SpecContentInjective(p: string, q: string)
    ensures GenerateSpecContent(p) == GenerateSpecContent(q) <==> InferClassName(p) == InferClassName(q)
  {
    FramedEqual(SpecHeader, InferClassName(p), InferClassName(q), SpecFooter);
  }

  /** Generating from the spec path instead of the implementation path gives the same spec. */
  lemma SpecContentIgnoresSpecSuffix(p: string)
    ensures GenerateSpecContent(InsertSpecSuffix(p)) == GenerateSpecContent(p)
  {
    InferClassNameIgnoresSpecSuffix(p);
  }

  /**
   * A file `d/X` under `app/`, `lib/` or `spec/` and the spec `spec/X_spec`
   * are named alike: neither the top directory nor the `_spec` suffix enters
   * the name.
   */
  lemma SpecNamedLikeImplementation(d: string, X: string)
    requires d in TopDirectories
    requires '\\' !in X && X != "" && NoLineBreak(X) && !Contains(X, "packs/")
    ensures InferClassName("spec/" + InsertSpecSuffix(X)) == InferClassName(d + "/" + X)
  {
    assert InferClassName("spec/" + InsertSpecSuffix(X)) == InferClassName("spec/" + X) by {
      InsertBehindPrefix("spec/", X);
      InferClassNameIgnoresSpecSuffix("spec/" + X);
    }
    assert InferClassName("spec/" + X) == InferClassName(d + "/" + X) by {
      HeadSpelling("spec", "spec/", X);
      ClassNameAcrossTopDirs("spec", d, X);
    }
  }

  /** A path whose first segment is a Rails app directory is not empty. */
  lemma RailsHeadNonEmpty(X: string)
    requires Split(X, '/')[0] in RailsAppDirectories
    ensures X != ""
  {
    SplitWithout("", '/');
  }

  /**
   * For `app/X` on the usual layout, the spec the resolver points to and the
   * implementation get the same generated spec.
   */
  lemma AppSpecContent(X: string)
    requires '\\' !in X && NoLineBreak(X) && !EndsWith(X, "_spec.rb") && !Contains(X, "packs/")
    requires "app" !in Split(X, '/') && "spec" !in Split(X, '/') && "packs" !in Split(X, '/')
    requires Split(X, '/')[0] in RailsAppDirectories
    ensures GenerateSpecContent(ResolveSpecPath("app/" + X)) == GenerateSpecContent("app/" + X)
  {
    AppRoundTrip(X);
    RailsHeadNonEmpty(X);
    HeadSpelling("app", "app/", X);
    SpecNamedLikeImplementation("app", X);
    SpecContentInjective(ResolveSpecPath("app/" + X), "app/" + X);
  }
}
