/**
 * What `inferClassName` (src/fileCreator.ts:17-29) keeps of a path with text
 * in front of the directories its patterns look for, as the absolute paths
 * the editor passes have. Both patterns are unanchored and the engine takes
 * the leftmost match: text in front changes nothing as long as no match can
 * start in it, and when one can, the name is built from that earlier match.
 */
module ClassNamePrefix {
  import opened Text
  import opened PathResolver
  import opened Classification
  import opened FileCreator
  import opened ClassNameProperties
  import opened ClassNameExamples

  /**
   * A directory prefix no match can start in: empty or ending with a slash,
   * free of backslashes, and holding no `packs/`, `app/`, `lib/` or `spec/`.
   */
  predicate PlainPrefix(P: string)
  {
    (P == "" || P[|P| - 1] == '/') && '\\' !in P
    && !Contains(P, "packs/") && !Contains(P, "app/") && !Contains(P, "lib/") && !Contains(P, "spec/")
  }

  /** Neither pattern can start before index `k` of `n`: no `packs/` and no top directory there. */
  predicate NoStartBefore(n: string, k: nat)
  {
    forall j: nat | j < k ::
      !At(n, j, "packs/") && !At(n, j, "app/") && !At(n, j, "lib/") && !At(n, j, "spec/")
  }

  // ---------------------------------------------------------------------
  // The leftmost match, found after a stretch where neither pattern starts

  /**
   * `packs/<name>/<app|lib|spec>/C` at `k`, with nothing before `k` where a
   * match could start: the pack pattern is found at `k` and captures `C`.
   */
  lemma PackFoundAt(n: string, k: nat, name: string, d: string, C: string)
    requires NoStartBefore(n, k) && k <= |n| && n[k..] == "packs/" + name + "/" + (d + "/" + C)
    requires name != "" && '/' !in name && d in TopDirectories
    requires C != "" && NoLineBreak(C)
    ensures PackMatchStart(n) == Some(k)
    ensures RelativeName(n) == C
  {
    var t := n[k..];
    assert At(n, k, "packs/") by {
      assert t[..6] == "packs/";
      assert n[k..k + 6] == t[..6];
    }
    assert n[k + 6..] == name + "/" + (d + "/" + C) by {
      assert n[k + 6..] == t[6..];
    }
    PackRelativeAtSplit(n, k, name, d, C);
    forall j: nat | j < k
      ensures PackRelativeAt(n, j).None?
    {
      assert !At(n, j, "packs/");
    }
  }

  /**
   * `<app|lib|spec>/C` at `k`, no `packs/` anywhere and nothing before `k`
   * where a match could start: the standard pattern is found at `k` and the
   * name is built from what it keeps of `C`.
   */
  lemma StandardFoundAt(n: string, k: nat, d: string, C: string)
    requires NoStartBefore(n, k) && !Contains(n, "packs/")
    requires k <= |n| && n[k..] == d + "/" + C
    requires d in TopDirectories && C != "" && NoLineBreak(C)
    ensures PackMatchStart(n).None? && StandardMatchStart(n) == Some(k)
    ensures RelativeName(n) == StandardRest(C).value
  {
    NoPackMatch(n);
    StandardAtIndex(n, k, d, C);
    NoStandardBefore(n, k);
  }

  /** `<app|lib|spec>/C` at `k`: the standard pattern tried there keeps what it keeps of `C`. */
  lemma StandardAtIndex(n: string, k: nat, d: string, C: string)
    requires k <= |n| && n[k..] == d + "/" + C && d in TopDirectories
    ensures StandardRelativeAt(n, k) == StandardRest(C)
  {
    var t := n[k..];
    TopDirShift(n, k);
    TopDirOf(t, d, C);
    assert n[k + |d| + 1..] == t[|d| + 1..];
  }

  /** Where no top directory starts, the standard pattern does not match. */
  lemma NoStandardBefore(n: string, k: nat)
    requires NoStartBefore(n, k)
    ensures forall j: nat | j < k :: StandardRelativeAt(n, j).None?
  {
    forall j: nat | j < k
      ensures StandardRelativeAt(n, j).None?
    {
      assert !At(n, j, "app/") && !At(n, j, "lib/") && !At(n, j, "spec/");
    }
  }

  // ---------------------------------------------------------------------
  // A plain prefix

  /**
   * A word that ends in its only slash cannot start inside a prefix that
   * ends with a slash unless it occurs in the prefix.
   */
  lemma NoStraddle(P: string, s: string, w: string, j: nat)
    requires P == "" || P[|P| - 1] == '/'
    requires |w| > 0 && w[|w| - 1] == '/' && '/' !in w[..|w| - 1]
    requires !Contains(P, w) && j < |P|
    ensures !At(P + s, j, w)
  {
    if j + |w| <= |P| {
      assert !At(P, j, w);
      assert (P + s)[j..j + |w|] == P[j..j + |w|];
    } else if j + |w| <= |P + s| {
      var k := |P| - 1 - j;
      assert (P + s)[j..j + |w|][k] == '/';
      assert w[..|w| - 1][k] == w[k];
    }
  }

  /** No match of either pattern starts inside a plain prefix. */
  lemma PlainPrefixNoStart(P: string, s: string)
    requires PlainPrefix(P)
    ensures NoStartBefore(P + s, |P|)
  {
    forall j: nat | j < |P|
      ensures !At(P + s, j, "packs/") && !At(P + s, j, "app/") && !At(P + s, j, "lib/") && !At(P + s, j, "spec/")
    {
      NoStraddle(P, s, "packs/", j);
      NoStraddle(P, s, "app/", j);
      NoStraddle(P, s, "lib/", j);
      NoStraddle(P, s, "spec/", j);
    }
  }

  /** A plain prefix adds no `packs/` to a path that has none. */
  lemma NoPacksBehind(P: string, s: string)
    requires PlainPrefix(P) && !Contains(s, "packs/")
    ensures !Contains(P + s, "packs/")
  {
    var n := P + s;
    assert n[|P|..] == s;
    forall j: nat | j <= |n|
      ensures !At(n, j, "packs/")
    {
      if j < |P| {
        NoStraddle(P, s, "packs/", j);
      } else {
        AtDrop(n, |P|, j - |P|, "packs/");
      }
    }
  }

  /** Normalising leaves a backslash-free prefix in front as it is. */
  lemma NormalizeBehind(P: string, q: string)
    requires '\\' !in P
    ensures Normalize(P + q) == P + Normalize(q)
  {
    var a, b := Normalize(P + q), P + Normalize(q);
    forall i | 0 <= i < |a|
      ensures a[i] == b[i]
    {
      if i >= |P| {
        assert (P + q)[i] == q[i - |P|];
      } else {
        assert (P + q)[i] == P[i];
      }
    }
  }

  /** Cleaning a backslash-free path behind such a prefix only removes the `_spec` suffix of the path. */
  lemma CleanBehind(P: string, q: string)
    requires (P == "" || P[|P| - 1] == '/') && '\\' !in P && '\\' !in q
    ensures RemoveSpecSuffix(Normalize(P + q)) == P + RemoveSpecSuffix(q)
  {
    NormalizeBehind(P, q);
    NormalizeFixed(q);
    RemoveBehindPrefix(P, q);
  }

  // ---------------------------------------------------------------------
  // Absolute paths

  /**
   * `P<app|lib|spec>/X` behind a plain prefix such as `/home/dev/shop/`: the
   * standard pattern is found right after the prefix, and the name is the
   * one the path without it gets, which `StandardClassName` spells out.
   */
  lemma StandardClassNameBehind(P: string, d: string, X: string)
    requires PlainPrefix(P)
    requires d in TopDirectories && '\\' !in X && X != "" && NoLineBreak(X) && !Contains(X, "packs/")
    ensures StandardMatchStart(RemoveSpecSuffix(Normalize(P + (d + "/" + X)))) == Some(|P|)
    ensures InferClassName(P + (d + "/" + X)) == InferClassName(d + "/" + X)
  {
    StandardRelativeBehind(P, d, X);
  }

  /** The relative path of the cleaned `P<app|lib|spec>/X` is that of the cleaned `<app|lib|spec>/X`. */
  lemma StandardRelativeBehind(P: string, d: string, X: string)
    requires PlainPrefix(P)
    requires d in TopDirectories && '\\' !in X && X != "" && NoLineBreak(X) && !Contains(X, "packs/")
    ensures StandardMatchStart(RemoveSpecSuffix(Normalize(P + (d + "/" + X)))) == Some(|P|)
    ensures RelativeName(RemoveSpecSuffix(Normalize(P + (d + "/" + X)))) == RelativeName(RemoveSpecSuffix(Normalize(d + "/" + X)))
  {
    var C := RemoveSpecSuffix(X);
    var p := d + "/" + X;
    var c := d + "/" + C;
    StandardPathParts(P, d, X, C, p, c);
    var n := P + c;
    assert n[|P|..] == c && c[0..] == c;
    StandardFoundAt(n, |P|, d, C);
    StandardFoundAt(c, 0, d, C);
  }

  /** The cleaned forms of `<app|lib|spec>/X` with and without a plain prefix, and what holds of them. */
  lemma StandardPathParts(P: string, d: string, X: string, C: string, p: string, c: string)
    requires PlainPrefix(P)
    requires d in TopDirectories && '\\' !in X && X != "" && NoLineBreak(X) && !Contains(X, "packs/")
    requires C == RemoveSpecSuffix(X) && p == d + "/" + X && c == d + "/" + C
    ensures RemoveSpecSuffix(Normalize(P + p)) == P + c && RemoveSpecSuffix(Normalize(p)) == c
    ensures C != "" && NoLineBreak(C) && !Contains(c, "packs/") && !Contains(P + c, "packs/")
    ensures NoStartBefore(P + c, |P|)
  {
    RemoveSpecSuffixKeeps(X);
    StandardSuffix(d, X, p, c);
    CleanPair(P, p, c);
    TopDirPlain(d);
    NoPacksAcross(c, d, C);
    NoPacksBehind(P, c);
    PlainPrefixNoStart(P, c);
  }

  /** `<app|lib|spec>/X` has no backslash, and removing the suffix only touches `X`. */
  lemma StandardSuffix(d: string, X: string, p: string, c: string)
    requires d in TopDirectories && '\\' !in X
    requires p == d + "/" + X && c == d + "/" + RemoveSpecSuffix(X)
    ensures '\\' !in p && RemoveSpecSuffix(p) == c
  {
    TopDirPlain(d);
    var a := d + "/";
    assert a[|a| - 1] == '/' && p == a + X;
    assert forall ch | ch in p :: ch in d || ch in "/" || ch in X;
    SuffixBehindPrefix(a, X);
  }

  /** A top directory is a plain word: no slash, no backslash, and not ending in `packs`. */
  lemma TopDirPlain(d: string)
    requires d in TopDirectories
    ensures '/' !in d && '\\' !in d && !EndsWith(d, "packs")
  {
    if d == "spec" {
      assert d[0] != "packs"[0];
    }
  }

  /** A backslash-free path and the form it takes once cleaned, with a plain prefix in front and without. */
  lemma CleanPair(P: string, p: string, c: string)
    requires PlainPrefix(P) && '\\' !in p && RemoveSpecSuffix(p) == c
    ensures RemoveSpecSuffix(Normalize(P + p)) == P + c && RemoveSpecSuffix(Normalize(p)) == c
  {
    CleanBehind(P, p);
    NormalizeFixed(p);
  }

  /**
   * `Ppacks/<name>/<app|lib|spec>/X` behind a plain prefix: the pack pattern
   * is found right after the prefix, and the name is the one the path
   * without it gets, built from `X` as `PackClassName` says.
   */
  lemma PackClassNameBehind(P: string, name: string, d: string, X: string)
    requires PlainPrefix(P)
    requires name != "" && '/' !in name && '\\' !in name && d in TopDirectories
    requires '\\' !in X && X != "" && NoLineBreak(X)
    ensures PackMatchStart(RemoveSpecSuffix(Normalize(P + ("packs/" + name + "/" + (d + "/" + X))))) == Some(|P|)
    ensures InferClassName(P + ("packs/" + name + "/" + (d + "/" + X))) == InferClassName("packs/" + name + "/" + (d + "/" + X))
  {
    PackRelativeBehind(P, name, d, X);
  }

  /** The relative path of the cleaned `Ppacks/<name>/<app|lib|spec>/X` is that of the cleaned path without `P`. */
  lemma PackRelativeBehind(P: string, name: string, d: string, X: string)
    requires PlainPrefix(P)
    requires name != "" && '/' !in name && '\\' !in name && d in TopDirectories
    requires '\\' !in X && X != "" && NoLineBreak(X)
    ensures PackMatchStart(RemoveSpecSuffix(Normalize(P + ("packs/" + name + "/" + (d + "/" + X))))) == Some(|P|)
    ensures RelativeName(RemoveSpecSuffix(Normalize(P + ("packs/" + name + "/" + (d + "/" + X)))))
         == RelativeName(RemoveSpecSuffix(Normalize("packs/" + name + "/" + (d + "/" + X))))
  {
    var C := RemoveSpecSuffix(X);
    var p := "packs/" + name + "/" + (d + "/" + X);
    var c := "packs/" + name + "/" + (d + "/" + C);
    PackPathParts(P, name, d, X, C, p, c);
    var n := P + c;
    assert n[|P|..] == c && c[0..] == c;
    PackFoundAt(n, |P|, name, d, C);
    PackFoundAt(c, 0, name, d, C);
  }

  /** The cleaned forms of `packs/<name>/<app|lib|spec>/X` with and without a plain prefix. */
  lemma PackPathParts(P: string, name: string, d: string, X: string, C: string, p: string, c: string)
    requires PlainPrefix(P)
    requires name != "" && '/' !in name && '\\' !in name && d in TopDirectories
    requires '\\' !in X && X != "" && NoLineBreak(X)
    requires C == RemoveSpecSuffix(X) && p == "packs/" + name + "/" + (d + "/" + X) && c == "packs/" + name + "/" + (d + "/" + C)
    ensures RemoveSpecSuffix(Normalize(P + p)) == P + c && RemoveSpecSuffix(Normalize(p)) == c
    ensures C != "" && NoLineBreak(C) && NoStartBefore(P + c, |P|)
  {
    RemoveSpecSuffixKeeps(X);
    PackSuffix(name, d, X, p, c);
    CleanPair(P, p, c);
    PlainPrefixNoStart(P, c);
  }

  /** `packs/<name>/<app|lib|spec>/X` has no backslash, and removing the suffix only touches `X`. */
  lemma PackSuffix(name: string, d: string, X: string, p: string, c: string)
    requires '\\' !in name && d in TopDirectories && '\\' !in X
    requires p == "packs/" + name + "/" + (d + "/" + X) && c == "packs/" + name + "/" + (d + "/" + RemoveSpecSuffix(X))
    ensures '\\' !in p && RemoveSpecSuffix(p) == c
  {
    assert '\\' !in p by {
      assert forall ch | ch in p :: ch in "packs/" || ch in name || ch in "/" || ch in d || ch in X;
    }
    PackCleanPath(p, name, d + "/" + X);
    SuffixBehindPrefix(d + "/", X);
    NormalizeFixed(p);
  }

  /** The doc example on an absolute path: `<P>app/models/<word>.rb` is named after the word, capitalized. */
  lemma AbsoluteModelExample(P: string, p: string, w: string)
    requires PlainPrefix(P) && p == P + "app/models/" + w + ".rb"
    requires '_' !in w && '/' !in w && '\\' !in w && NoLineBreak(w)
    ensures InferClassName(p) == Capitalize(w)
  {
    var X := "models/" + (w + ".rb");
    var q := "app/models/" + w + ".rb";
    ModelsPath(P, p, w, X, q);
    ModelExample(q, w);
    StandardClassNameBehind(P, "app", X);
  }

  /** How `<P>app/models/<word>.rb` splits, and what holds of the part after `app/`. */
  lemma ModelsPath(P: string, p: string, w: string, X: string, q: string)
    requires p == P + "app/models/" + w + ".rb" && X == "models/" + (w + ".rb") && q == "app/models/" + w + ".rb"
    requires '/' !in w && '\\' !in w && NoLineBreak(w)
    ensures q == "app" + "/" + X && p == P + ("app" + "/" + X)
    ensures '\\' !in X && X != "" && NoLineBreak(X) && !Contains(X, "packs/")
  {
    PlainFile(w);
    assert X == "models" + "/" + (w + ".rb");
    NoPacksAcross(X, "models", w + ".rb");
    assert forall ch | ch in X :: ch in "models/" || ch in w + ".rb";
  }

  // ---------------------------------------------------------------------
  // A directory name that ends in `app`

  /**
   * `<Q>my_app/app/X`: the standard pattern first matches at the `app/` that
   * ends `my_app/`, so the inner `app` directory and any category word after
   * it stay in the name, which gains an `App` component in front.
   */
  lemma LeftmostTopDirWins(Q: string, X: string)
    requires PlainPrefix(Q)
    requires '\\' !in X && X != "" && NoLineBreak(X) && !Contains(X, "packs/")
    ensures StandardMatchStart(RemoveSpecSuffix(Normalize(Q + "my_app/app/" + X))) == Some(|Q| + 3)
    ensures InferClassName(Q + "my_app/app/" + X) == ClassName(StripRb("app/" + RemoveSpecSuffix(X)))
    ensures InferClassName(Q + "my_app/app/" + X) == Camelize("app") + "::" + ClassName(StripRb(RemoveSpecSuffix(X)))
  {
    var C := RemoveSpecSuffix(X);
    RemoveSpecSuffixKeeps(X);
    MyAppClean(Q, X);
    MyAppRelative(Q, C);
    AppNameTail(C);
  }

  /** The cleaned `<Q>my_app/app/C`: the standard pattern is found at the `app/` that ends `my_app/`. */
  lemma MyAppRelative(Q: string, C: string)
    requires PlainPrefix(Q) && C != "" && NoLineBreak(C) && !Contains(C, "packs/")
    ensures StandardMatchStart(Q + ("my_app/app/" + C)) == Some(|Q| + 3)
    ensures RelativeName(Q + ("my_app/app/" + C)) == "app/" + C
  {
    var t := "app/" + C;
    var L := "my_app/app/" + C;
    var n := Q + L;
    MyAppParts(C, t, L);
    NoPacksBehind(Q, L);
    NothingBeforeApp(Q, "app" + "/" + t);
    assert n[|Q| + 3..] == L[3..];
    InnerAppKept(C);
    StandardFoundAt(n, |Q| + 3, "app", t);
  }

  /** The cleaned form of `<Q>my_app/app/X`: only the `_spec` suffix of `X` goes. */
  lemma MyAppClean(Q: string, X: string)
    requires PlainPrefix(Q) && '\\' !in X
    ensures RemoveSpecSuffix(Normalize(Q + "my_app/app/" + X)) == Q + ("my_app/app/" + RemoveSpecSuffix(X))
  {
    var q := "my_app/app/" + X;
    assert '\\' !in q by {
      assert forall c | c in q :: c in "my_app/app/" || c in X;
    }
    assert Q + "my_app/app/" + X == Q + q;
    CleanBehind(Q, q);
    RemoveBehindPrefix("my_app/app/", X);
  }

  /** How `my_app/app/C` splits around its two `app` directories, and that it holds no `packs/`. */
  lemma MyAppParts(C: string, t: string, L: string)
    requires t == "app/" + C && L == "my_app/app/" + C && !Contains(C, "packs/")
    ensures t == "app" + "/" + C && L == "my_" + ("app" + "/" + t) && L[3..] == "app" + "/" + t
    ensures !Contains(L, "packs/")
  {
    NoPacksAcross(t, "app", C);
    assert L == "my_app" + "/" + t;
    NoPacksAcross(L, "my_app", t);
  }

  /** The class name of `app/R`: an `App` component in front of the name of `R`. */
  lemma AppNameTail(C: string)
    ensures ClassName(StripRb("app/" + C)) == Camelize("app") + "::" + ClassName(StripRb(C))
  {
    StripRbBehind("app/", C);
    assert "app/" + StripRb(C) == "app" + "/" + StripRb(C);
    ClassNameCons("app", StripRb(C));
  }

  /** In `<Q>my_` followed by anything, no match of either pattern starts. */
  lemma NothingBeforeApp(Q: string, s: string)
    requires PlainPrefix(Q)
    ensures NoStartBefore(Q + ("my_" + s), |Q| + 3)
  {
    var t := "my_" + s;
    var n := Q + t;
    PlainPrefixNoStart(Q, t);
    forall j: nat | |Q| <= j < |Q| + 3
      ensures !At(n, j, "packs/") && !At(n, j, "app/") && !At(n, j, "lib/") && !At(n, j, "spec/")
    {
      var c := n[j];
      assert c == "my_"[j - |Q|];
      FirstCharBlocks(n, j, "packs/");
      FirstCharBlocks(n, j, "app/");
      FirstCharBlocks(n, j, "lib/");
      FirstCharBlocks(n, j, "spec/");
    }
  }

  /** A word cannot occur at an index holding a character other than its first. */
  lemma FirstCharBlocks(n: string, j: nat, w: string)
    requires j < |n| && |w| > 0 && n[j] != w[0]
    ensures !At(n, j, w)
  {
    if j + |w| <= |n| {
      assert n[j..j + |w|][0] == n[j];
    }
  }

  /** What the standard pattern keeps of `app/C` after the top directory: all of it, `app` being no category word. */
  lemma InnerAppKept(C: string)
    requires C != "" && NoLineBreak(C)
    ensures StandardRest("app/" + C) == Some("app/" + C)
  {
    var t := "app/" + C;
    assert NoLineBreak(t) by {
      assert forall c | c in t :: c in "app/" || c in C;
    }
    assert FirstWordAt(t, CategoryWords).None? by {
      assert forall w | w in CategoryWords :: w[0] != 'a';
    }
    assert t[0] == 'a';
    assert TailStarts(t) == [0];
    assert t[0..] == t;
    assert RestMatches(t, 0);
  }

  /** Dropping `.rb` does not reach into a prefix that ends with a slash. */
  lemma StripRbBehind(a: string, r: string)
    requires a != "" && a[|a| - 1] == '/'
    ensures StripRb(a + r) == a + StripRb(r)
  {
    EndsWithAfterSlash(a, r, ".rb");
    if EndsWith(r, ".rb") {
      assert (a + r)[..|a + r| - 3] == a + r[..|r| - 3];
    }
  }
}
