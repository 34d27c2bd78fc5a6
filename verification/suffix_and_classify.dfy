/**
 * Properties of normalisation, of the two classifiers and of the
 * `_spec.rb` suffix helpers.
 */
module Classification {
  import opened Text
  import opened Types
  import opened PathResolver

  // ---------------------------------------------------------------------
  // Normalisation

  /** Normalising twice is normalising once: every caller may normalise again. */
  lemma NormalizeIdempotent(p: string)
    ensures Normalize(Normalize(p)) == Normalize(p)
  {
    NormalizeFixed(Normalize(p));
  }

  /** A path without backslashes is already normalised. */
  lemma NormalizeFixed(s: string)
    requires '\\' !in s
    ensures Normalize(s) == s
  {
    var n := Normalize(s);
    forall i | 0 <= i < |s|
      ensures n[i] == s[i]
    {
    }
  }

  // ---------------------------------------------------------------------
  // Segments

  /**
   * A word that is not a `/`-segment of `s` occurs nowhere in `s` between
   * slashes, nor at its start or end.
   */
  lemma NotSegment(s: string, w: string)
    requires '/' !in w && w !in Split(s, '/')
    ensures !HasDir(s, w) && !EndsWith(s, "/" + w) && s != w
  {
    SplitMember(s, w, '/');
  }

  /** `w` starts `s` as a directory exactly when it is the first of at least two segments. */
  lemma StartsWithSegment(s: string, w: string)
    requires '/' !in w
    ensures StartsWith(s, w + "/") <==> |Split(s, '/')| > 1 && Split(s, '/')[0] == w
  {
    match IndexOf(s, '/')
    case None =>
      AbsentCharNoOccurrence(s, w + "/", |w|);
      EndsOccur(s, w + "/");
    case Some(k) =>
      var a, r := s[..k], s[k + 1..];
      assert s == a + ['/'] + r;
      StartsWithFirstPart(a, r, w, '/');
      SplitFirst(a, r, '/');
  }

  /** The first segment of `a + "/" + b` is the first segment of `a`. */
  lemma FirstSegmentOfConcat(a: string, b: string)
    ensures Split(a + "/" + b, '/')[0] == Split(a, '/')[0]
    ensures |Split(a + "/" + b, '/')| > 1
  {
    SplitConcat(a, b, '/');
  }

  // ---------------------------------------------------------------------
  // Classifiers

  /**
   * `isSpecFile`: the normalised path ends with `_spec.rb`, or `spec` is one
   * of its segments -- the whole path, its first, its last, or one between
   * two slashes.
   */
  lemma IsSpecFileIff(p: string)
    ensures IsSpecFile(p) <==>
      var n := Normalize(p);
      EndsWith(n, "_spec.rb") || n == "spec" || StartsWith(n, "spec/")
      || EndsWith(n, "/spec") || Contains(n, "/spec/")
  {
    var n := Normalize(p);
    SplitMember(n, "spec", '/');
    assert "spec" + ['/'] == "spec/" && ['/'] + "spec" == "/spec";
    assert ['/'] + "spec" + ['/'] == "/spec/";
  }

  /** Normalising keeps every occurrence of a text without backslashes. */
  lemma NormalizeKeepsAt(s: string, i: nat, t: string)
    requires '\\' !in t && At(s, i, t)
    ensures At(Normalize(s), i, t)
  {
    var n := Normalize(s);
    forall j | 0 <= j < |t|
      ensures n[i + j] == t[j]
    {
      assert s[i + j] == s[i..i + |t|][j];
    }
    assert n[i..i + |t|] == t;
  }

  /** Normalising keeps every segment without backslashes. */
  lemma NormalizeKeepsSegment(s: string, w: string)
    requires '\\' !in w && '/' !in w && w in Split(s, '/')
    ensures w in Split(Normalize(s), '/')
  {
    var n := Normalize(s);
    SplitMember(s, w, '/');
    SplitMember(n, w, '/');
    assert '\\' !in w + "/" && '\\' !in "/" + w && '\\' !in "/" + w + "/";
    if s == w {
      NormalizeFixed(w);
    } else if StartsWith(s, w + "/") {
      NormalizeKeepsStart(s, w + "/");
    } else if EndsWith(s, "/" + w) {
      NormalizeKeepsEnd(s, "/" + w);
    } else {
      var i: nat :| i <= |s| && At(s, i, "/" + w + "/");
      NormalizeKeepsAt(s, i, "/" + w + "/");
    }
  }

  /** A beginning without backslashes survives normalizing. */
  lemma NormalizeKeepsStart(p: string, t: string)
    requires '\\' !in t && StartsWith(p, t)
    ensures StartsWith(Normalize(p), t)
  {
    var n := Normalize(p);
    assert |n| == |p| && n[..|t|] == t;
  }

  /** An ending without backslashes survives normalizing. */
  lemma NormalizeKeepsEnd(p: string, t: string)
    requires '\\' !in t && EndsWith(p, t)
    ensures EndsWith(Normalize(p), t)
  {
    var n := Normalize(p);
    EndsOccur(p, t);
    assert |n| == |p| && n[|p| - |t|..|p|] == t;
    assert n[|n| - |t|..] == t;
  }

  /** A path with a `spec` segment is a spec file. */
  lemma SpecSegmentIsSpecFile(s: string)
    requires "spec" in Split(s, '/')
    ensures IsSpecFile(s)
  {
    NormalizeKeepsSegment(s, "spec");
  }

  /** An occurrence of `/packs/<name>/` is an occurrence of `/packs/`. */
  lemma InteriorPackIsPacksDir(n: string, i: nat)
    ensures InteriorPackAt(n, i) ==> HasDir(n, "packs")
  {
    assert "/" + "packs" + "/" == "/packs/";
    if InteriorPackAt(n, i) {
      assert At(n, i, "/packs/");
    }
  }

  /** Without a `packs` segment a path is not a pack file. */
  lemma NotPackFile(p: string)
    requires "packs" !in Split(Normalize(p), '/')
    ensures !IsPackFile(p)
  {
    var n := Normalize(p);
    NotSegment(n, "packs");
    forall i: nat | i <= |n|
      ensures !InteriorPackAt(n, i)
    {
      InteriorPackIsPacksDir(n, i);
    }
  }

  // ---------------------------------------------------------------------
  // Suffix helpers

  /** A path that already ends with `_spec.rb` is left as it is; `x.rb` gets `_spec` before `.rb`. */
  lemma InsertSpecSuffixShape(s: string)
    ensures EndsWith(s, "_spec.rb") ==> InsertSpecSuffix(s) == s
    ensures EndsWith(s, ".rb") ==> EndsWith(InsertSpecSuffix(s), "_spec.rb")
    ensures EndsWith(s, ".rb") && !EndsWith(s, "_spec.rb") ==>
      InsertSpecSuffix(s) == s[..|s| - 3] + "_spec.rb"
    ensures !EndsWith(s, ".rb") ==> InsertSpecSuffix(s) == s
  {
    SpecSuffixIsRb(s);
  }

  /** `insertSpecSuffix` is idempotent. */
  lemma InsertSpecSuffixIdempotent(s: string)
    ensures InsertSpecSuffix(InsertSpecSuffix(s)) == InsertSpecSuffix(s)
  {
    InsertSpecSuffixShape(s);
    InsertSpecSuffixShape(InsertSpecSuffix(s));
  }

  /** `insertSpecSuffix` never creates `_spec_spec.rb`: it only keeps one that was there. */
  lemma InsertSpecSuffixNoDouble(s: string)
    ensures EndsWith(InsertSpecSuffix(s), "_spec_spec.rb") ==> EndsWith(s, "_spec_spec.rb")
  {
    if EndsWith(s, ".rb") && !EndsWith(s, "_spec.rb") {
      var r := InsertSpecSuffix(s);
      assert r == s[..|s| - 3] + "_spec.rb";
      if |r| >= 13 {
        assert r[|r| - 13..] == r[|r| - 13..|r| - 8] + "_spec.rb";
        assert r[|r| - 13..|r| - 8] == s[|s| - 8..|s| - 3];
        assert s[|s| - 8..] == s[|s| - 8..|s| - 3] + ".rb";
        assert r[|r| - 13..][..5] == r[|r| - 13..|r| - 8];
      }
    }
  }

  /** `removeSpecSuffix` undoes `insertSpecSuffix` on every path that did not already end with `_spec.rb`. */
  lemma RemoveAfterInsert(s: string)
    requires !EndsWith(s, "_spec.rb")
    ensures RemoveSpecSuffix(InsertSpecSuffix(s)) == s
  {
    InsertSpecSuffixShape(s);
    if EndsWith(s, ".rb") {
      var r := InsertSpecSuffix(s);
      assert r[..|r| - 8] == s[..|s| - 3];
      assert s == s[..|s| - 3] + ".rb";
    }
  }

  /** On any path, removing after inserting is removing. */
  lemma RemoveAfterInsertAny(s: string)
    ensures RemoveSpecSuffix(InsertSpecSuffix(s)) == RemoveSpecSuffix(s)
  {
    if !EndsWith(s, "_spec.rb") {
      RemoveAfterInsert(s);
    }
  }

  /** Paths not ending in `.rb` pass through both helpers unchanged. */
  lemma SuffixPassThrough(s: string)
    requires !EndsWith(s, ".rb")
    ensures InsertSpecSuffix(s) == s && RemoveSpecSuffix(s) == s
  {
    InsertSpecSuffixShape(s);
    SpecSuffixIsRb(s);
  }

  /** A path ending in `_spec.rb` ends in `.rb`. */
  lemma SpecSuffixIsRb(s: string)
    ensures EndsWith(s, "_spec.rb") ==> EndsWith(s, ".rb")
  {
    if EndsWith(s, "_spec.rb") {
      assert s[|s| - 3..] == s[|s| - 8..][5..];
    }
  }

  /** `removeSpecSuffix` is not idempotent: `a_spec_spec.rb` loses one `_spec`, then the other. */
  lemma RemoveSpecSuffixNotIdempotent()
    ensures RemoveSpecSuffix("a_spec_spec.rb") == "a_spec.rb"
    ensures RemoveSpecSuffix(RemoveSpecSuffix("a_spec_spec.rb")) == "a.rb"
  {
    assert EndsWith("a_spec_spec.rb", "_spec.rb");
    assert EndsWith("a_spec.rb", "_spec.rb");
  }

  /** A suffix without slashes ends `a + x`, for `a` empty or ending in a slash, exactly when it ends `x`. */
  lemma EndsWithAfterSlash(a: string, x: string, t: string)
    requires a == "" || a[|a| - 1] == '/'
    requires '/' !in t
    ensures EndsWith(a + x, t) <==> EndsWith(x, t)
  {
    var s := a + x;
    if |t| <= |x| {
      assert s[|s| - |t|..] == x[|x| - |t|..];
    } else if |t| <= |s| {
      assert s[|s| - |t|..][|t| - |x| - 1] == s[|a| - 1];
    }
  }

  /**
   * The suffix helpers only look at the file name: behind a directory
   * prefix (empty or ending in a slash) they act on the rest alone.
   */
  lemma SuffixBehindPrefix(a: string, x: string)
    requires a == "" || a[|a| - 1] == '/'
    ensures InsertSpecSuffix(a + x) == a + InsertSpecSuffix(x)
    ensures RemoveSpecSuffix(a + x) == a + RemoveSpecSuffix(x)
  {
    InsertBehindPrefix(a, x);
    RemoveBehindPrefix(a, x);
  }

  /** `insertSpecSuffix` behind a directory prefix acts on the rest alone. */
  lemma InsertBehindPrefix(a: string, x: string)
    requires a == "" || a[|a| - 1] == '/'
    ensures InsertSpecSuffix(a + x) == a + InsertSpecSuffix(x)
  {
    EndsWithAfterSlash(a, x, "_spec.rb");
    EndsWithAfterSlash(a, x, ".rb");
    if !EndsWith(x, "_spec.rb") && EndsWith(x, ".rb") {
      DropBehindPrefix(a, x, 3);
    }
  }

  /** `removeSpecSuffix` behind a directory prefix acts on the rest alone. */
  lemma RemoveBehindPrefix(a: string, x: string)
    requires a == "" || a[|a| - 1] == '/'
    ensures RemoveSpecSuffix(a + x) == a + RemoveSpecSuffix(x)
  {
    EndsWithAfterSlash(a, x, "_spec.rb");
    if EndsWith(x, "_spec.rb") {
      DropBehindPrefix(a, x, 8);
    }
  }

  /** Cutting the last `k` characters of `a + x` cuts them from `x`. */
  lemma DropBehindPrefix(a: string, x: string, k: nat)
    requires k <= |x|
    ensures (a + x)[..|a + x| - k] == a + x[..|x| - k]
  {
  }

  /** Every character of `insertSpecSuffix(s)` comes from `s` or from `_spec.rb`. */
  lemma InsertSpecSuffixChars(s: string)
    ensures forall c | c in InsertSpecSuffix(s) :: c in s || c in "_spec.rb"
  {
    if !EndsWith(s, "_spec.rb") && EndsWith(s, ".rb") {
      forall c | c in InsertSpecSuffix(s)
        ensures c in s || c in "_spec.rb"
      {
        var i :| 0 <= i < |InsertSpecSuffix(s)| && InsertSpecSuffix(s)[i] == c;
        if i < |s| - 3 {
          assert c == s[i];
        } else {
          assert c == "_spec.rb"[i - (|s| - 3)];
        }
      }
    }
  }

  /** Inserting the suffix neither adds nor removes a `spec` or `packs` directory. */
  lemma InsertKeepsDirWords(s: string)
    ensures "spec" in Split(InsertSpecSuffix(s), '/') <==> "spec" in Split(s, '/')
    ensures "packs" in Split(InsertSpecSuffix(s), '/') <==> "packs" in Split(s, '/')
    ensures '/' in s ==> Split(InsertSpecSuffix(s), '/')[0] == Split(s, '/')[0]
  {
    DirWordsPlain();
    InsertSpecSuffixSegments(s, "spec");
    InsertSpecSuffixSegments(s, "packs");
  }

  /** `spec` and `packs` hold no slash and do not end with `.rb`. */
  lemma DirWordsPlain()
    ensures '/' !in "spec" && !EndsWith("spec", ".rb")
    ensures '/' !in "packs" && !EndsWith("packs", ".rb")
  {
    assert "packs"[4] != 'b';
  }

  /**
   * `insertSpecSuffix` only touches the file name: a slash-free word that
   * is not itself a `.rb` file name is a segment of the result exactly when
   * it is a segment of the input, and the first directory is kept.
   */
  lemma InsertSpecSuffixSegments(s: string, w: string)
    requires '/' !in w && !EndsWith(w, ".rb")
    ensures w in Split(InsertSpecSuffix(s), '/') <==> w in Split(s, '/')
    ensures '/' in s ==> Split(InsertSpecSuffix(s), '/')[0] == Split(s, '/')[0]
  {
    match LastIndexOf(s, '/')
    case None =>
      InsertSegmentsOfName(s, w);
    case Some(k) =>
      LastSlashSplit(s, k);
      InsertSegmentsAfterDir(s, s[..k], s[k + 1..], w);
  }

  /** The last slash splits a path into its directory and its file name. */
  lemma LastSlashSplit(s: string, k: nat)
    requires LastIndexOf(s, '/') == Some(k)
    ensures s == s[..k] + "/" + s[k + 1..] && '/' !in s[k + 1..]
  {
  }

  /** For a name without slashes, the word is the name before exactly when it is the name after. */
  lemma InsertSegmentsOfName(F: string, w: string)
    requires '/' !in F && '/' !in w && !EndsWith(w, ".rb")
    ensures '/' !in InsertSpecSuffix(F)
    ensures Split(F, '/') == [F] && Split(InsertSpecSuffix(F), '/') == [InsertSpecSuffix(F)]
    ensures w == InsertSpecSuffix(F) <==> w == F
  {
    InsertSpecSuffixShape(F);
    InsertSpecSuffixChars(F);
    assert '/' !in "_spec.rb";
    SpecSuffixIsRb(InsertSpecSuffix(F));
    SplitWithout(F, '/');
    SplitWithout(InsertSpecSuffix(F), '/');
  }

  /** Behind a directory `A`, only the segment after the last slash changes. */
  lemma InsertSegmentsAfterDir(s: string, A: string, F: string, w: string)
    requires s == A + "/" + F
    requires '/' !in F && '/' !in w && !EndsWith(w, ".rb")
    ensures w in Split(InsertSpecSuffix(s), '/') <==> w in Split(s, '/')
    ensures Split(InsertSpecSuffix(s), '/')[0] == Split(s, '/')[0]
  {
    var G := InsertSpecSuffix(F);
    assert InsertSpecSuffix(s) == A + "/" + G by {
      SuffixBehindPrefix(A + "/", F);
    }
    InsertSegmentsOfName(F, w);
    assert Split(s, '/') == Split(A, '/') + [F] by {
      assert s == A + ['/'] + F;
      SplitConcat(A, F, '/');
    }
    assert Split(A + "/" + G, '/') == Split(A, '/') + [G] by {
      assert A + "/" + G == A + ['/'] + G;
      SplitConcat(A, G, '/');
    }
  }
}
