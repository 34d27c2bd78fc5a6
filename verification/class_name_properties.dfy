/**
 * Properties of the class-name inference: a character-by-character
 * reference definition of the constant name, the alphabet of the result,
 * its independence from the `_spec` suffix and from the top directory,
 * and the examples of src/fileCreator.ts.
 */
module ClassNameProperties {
  import opened Text
  import opened PathResolver
  import opened Classification
  import opened FileCreator

  /**
   * A reference definition of the constant name, read off character by
   * character: a slash becomes `::`, an underscore is dropped, and the
   * first character of each word (after the start, a slash or an
   * underscore) is upper-cased.
   */
  function PascalPath(s: string, atWordStart: bool): (r: string)
    ensures '/' !in r && '_' !in r
    decreases |s|
  {
    if s == [] then []
    else if s[0] == '/' then "::" + PascalPath(s[1..], true)
    else if s[0] == '_' then PascalPath(s[1..], true)
    else [if atWordStart then ToUpper(s[0]) else s[0]] + PascalPath(s[1..], false)
  }

  /** Inside a word the reference copies the characters. */
  lemma {:induction false} WordUnderPascal(w: string, t: string)
    requires '_' !in w && '/' !in w
    ensures PascalPath(w + t, false) == w + PascalPath(t, false)
    decreases |w|
  {
    if w != [] {
      assert (w + t)[0] == w[0] && w[0] in w;
      assert (w + t)[1..] == w[1..] + t;
      assert '_' !in w[1..] && '/' !in w[1..] by {
        assert forall c | c in w[1..] :: c in w;
      }
      WordUnderPascal(w[1..], t);
      calc {
        PascalPath(w + t, false);
        [w[0]] + PascalPath(w[1..] + t, false);
        [w[0]] + (w[1..] + PascalPath(t, false));
        { assert w == [w[0]] + w[1..]; }
        w + PascalPath(t, false);
      }
    } else {
      assert w + t == t;
    }
  }

  /** A word at the start of a segment is capitalized. */
  lemma WordStartUnderPascal(w: string, t: string)
    requires '_' !in w && '/' !in w
    ensures w != [] ==> PascalPath(w + t, true) == Capitalize(w) + PascalPath(t, false)
  {
    if w != [] {
      assert (w + t)[1..] == w[1..] + t;
      WordUnderPascal(w[1..], t);
    }
  }

  /** Joining with the empty separator puts the parts side by side. */
  lemma JoinEmptyCons(a: string, rest: seq<string>)
    ensures Join([a] + rest, "") == a + Join(rest, "")
  {
    if |rest| > 0 {
      assert ([a] + rest)[1..] == rest;
    }
  }

  /** At the end of the path or before a slash the reference forgets whether a word has started. */
  lemma AtSegmentEnd(t: string)
    requires t == [] || t[0] == '/'
    ensures PascalPath(t, false) == PascalPath(t, true)
  {
  }

  /** A word followed by an underscore is capitalized and the next word starts afresh. */
  lemma WordThenUnderscore(w: string, u: string)
    requires '_' !in w && '/' !in w
    ensures PascalPath(w + "_" + u, true) == Capitalize(w) + PascalPath(u, true)
  {
    assert w + "_" + u == w + ("_" + u);
    assert ("_" + u)[1..] == u;
    if w != [] {
      WordStartUnderPascal(w, "_" + u);
    }
  }

  /** The first word of a segment leads its PascalCase form. */
  lemma CamelizeFirstWord(w: string, r: string)
    requires '_' !in w
    ensures Camelize(w + "_" + r) == Capitalize(w) + Camelize(r)
  {
    SplitFirst(w, r, '_');
    assert CapitalizeAll([w] + Split(r, '_')) == [Capitalize(w)] + CapitalizeAll(Split(r, '_')) by {
      assert ([w] + Split(r, '_'))[1..] == Split(r, '_');
    }
    JoinEmptyCons(Capitalize(w), CapitalizeAll(Split(r, '_')));
  }

  /** A segment of a single word is capitalized. */
  lemma SingleWordUnderPascal(part: string, t: string)
    requires '/' !in part && '_' !in part
    requires t == [] || t[0] == '/'
    ensures PascalPath(part + t, true) == Camelize(part) + PascalPath(t, true)
  {
    SplitWithout(part, '_');
    assert CapitalizeAll([part]) == [Capitalize(part)] by {
      assert [part][1..] == [];
    }
    assert Camelize(part) == Capitalize(part);
    if part == [] {
      assert part + t == t;
    } else {
      WordStartUnderPascal(part, t);
      AtSegmentEnd(t);
    }
  }

  /** A snake-case segment followed by the end or a slash turns into its PascalCase form. */
  lemma {:induction false} CamelizeUnderPascal(part: string, t: string)
    requires '/' !in part
    requires t == [] || t[0] == '/'
    ensures PascalPath(part + t, true) == Camelize(part) + PascalPath(t, true)
    decreases |part|
  {
    match IndexOf(part, '_')
    case None =>
      SingleWordUnderPascal(part, t);
    case Some(k) =>
      var w, r := part[..k], part[k + 1..];
      assert part == w + "_" + r;
      assert '/' !in w && '/' !in r by {
        assert forall c | c in w || c in r :: c in part;
      }
      calc {
        PascalPath(part + t, true);
        { Associate(w + "_", r, t); Associate(w, "_", r + t); }
        PascalPath(w + "_" + (r + t), true);
        { WordThenUnderscore(w, r + t); }
        Capitalize(w) + PascalPath(r + t, true);
        { CamelizeUnderPascal(r, t); }
        Capitalize(w) + (Camelize(r) + PascalPath(t, true));
        { CamelizeFirstWord(w, r); Associate(Capitalize(w), Camelize(r), PascalPath(t, true)); }
        Camelize(part) + PascalPath(t, true);
      }
  }

  /**
   * The constant name agrees with the reference: one `::`-separated
   * component per slash-separated segment, each the segment's words
   * capitalized and run together.
   */
  lemma {:induction false} ClassNameIsPascalPath(s: string)
    ensures ClassName(s) == PascalPath(s, true)
    decreases |s|
  {
    match IndexOf(s, '/')
    case None =>
      SplitWithout(s, '/');
      CamelizeUnderPascal(s, []);
      assert s + [] == s;
    case Some(k) =>
      var part, r := s[..k], s[k + 1..];
      assert s == part + "/" + r;
      ClassNameIsPascalPath(r);
      PascalPathCons(part, r);
  }

  /** If the reference agrees with the name of the rest, it agrees with the name of one more leading segment. */
  lemma PascalPathCons(part: string, r: string)
    requires '/' !in part && ClassName(r) == PascalPath(r, true)
    ensures ClassName(part + "/" + r) == PascalPath(part + "/" + r, true)
  {
    ClassNameCons(part, r);
    PascalPathSlash(r);
    CamelizeUnderPascal(part, "/" + r);
    Associate(Camelize(part), "::", PascalPath(r, true));
    Associate(part, "/", r);
  }

  /** A slash becomes `::` and starts a new segment. */
  lemma PascalPathSlash(r: string)
    ensures PascalPath("/" + r, true) == "::" + PascalPath(r, true)
  {
    assert ("/" + r)[1..] == r;
  }

  /** A segment followed by more segments leads the name, before `::`. */
  lemma ClassNameCons(a: string, b: string)
    requires '/' !in a
    ensures ClassName(a + "/" + b) == Camelize(a) + "::" + ClassName(b)
  {
    SplitFirst(a, b, '/');
    var rest := CamelizeAll(Split(b, '/'));
    assert CamelizeAll([a] + Split(b, '/')) == [Camelize(a)] + rest by {
      assert ([a] + Split(b, '/'))[1..] == Split(b, '/');
    }
    assert ([Camelize(a)] + rest)[1..] == rest;
  }

  /** A single segment is named by its PascalCase form. */
  lemma ClassNameOne(a: string)
    requires '/' !in a
    ensures ClassName(a) == Camelize(a)
  {
    SplitWithout(a, '/');
    assert CamelizeAll([a]) == [Camelize(a)] by {
      assert [a][1..] == [];
    }
  }

  /** A single word is capitalized. */
  lemma CamelizeOne(w: string)
    requires '_' !in w
    ensures Camelize(w) == Capitalize(w)
  {
    SplitWithout(w, '_');
    assert CapitalizeAll([w]) == [Capitalize(w)] by {
      assert [w][1..] == [];
    }
  }

  /** A segment of two words is the two words capitalized. */
  lemma CamelizeTwoWords(s: string, a: string, b: string)
    requires s == a + "_" + b && '_' !in a && '_' !in b
    ensures Camelize(s) == Capitalize(a) + Capitalize(b)
  {
    CamelizeFirstWord(a, b);
    CamelizeOne(b);
  }

  /** The inferred name has no slash and no underscore. */
  lemma ClassNameAlphabet(p: string)
    ensures '/' !in InferClassName(p) && '_' !in InferClassName(p)
  {
    ClassNameIsPascalPath(StripRb(RelativeName(RemoveSpecSuffix(Normalize(p)))));
  }
  /** Normalizing keeps a suffix with neither kind of slash, and creates none. */
  lemma NormalizeEndsWith(p: string, t: string)
    requires '\\' !in t && '/' !in t
    ensures EndsWith(Normalize(p), t) <==> EndsWith(p, t)
  {
    if EndsWith(p, t) {
      NormalizeKeepsEnd(p, t);
    }
    if EndsWith(Normalize(p), t) {
      NormalizeMadeNoEnd(p, t);
    }
  }

  /** An ending without slashes after normalizing was there before. */
  lemma NormalizeMadeNoEnd(p: string, t: string)
    requires '/' !in t && EndsWith(Normalize(p), t)
    ensures EndsWith(p, t)
  {
    var n := Normalize(p);
    forall j | 0 <= j < |t|
      ensures p[|p| - |t|..][j] == t[j]
    {
      assert n[|n| - |t| + j] == t[j];
      assert t[j] in t;
    }
  }

  /** Normalizing and inserting the `_spec` suffix commute. */
  lemma NormalizeInsert(p: string)
    ensures Normalize(InsertSpecSuffix(p)) == InsertSpecSuffix(Normalize(p))
  {
    NormalizeEndsWith(p, "_spec.rb");
    NormalizeEndsWith(p, ".rb");
    var n := Normalize(p);
    if !EndsWith(p, "_spec.rb") && EndsWith(p, ".rb") {
      var q := p[..|p| - 3] + "_spec.rb";
      var m := n[..|n| - 3] + "_spec.rb";
      forall i | 0 <= i < |q|
        ensures Normalize(q)[i] == m[i]
      {
        if i < |p| - 3 {
          assert q[i] == p[i];
        } else {
          assert q[i] == "_spec.rb"[i - (|p| - 3)];
          assert q[i] in "_spec.rb";
        }
      }
    }
  }

  /**
   * A spec path and the implementation path it is named after give the
   * same class name: inserting the `_spec` suffix changes nothing, since
   * the suffix is rewritten to `.rb` before anything else.
   */
  lemma InferClassNameIgnoresSpecSuffix(p: string)
    ensures InferClassName(InsertSpecSuffix(p)) == InferClassName(p)
  {
    NormalizeInsert(p);
    RemoveAfterInsertAny(Normalize(p));
  }
  // ---------------------------------------------------------------------
  // Which part of the path the name is built from

  /** No `packs/` anywhere, no match of the pack pattern. */
  lemma NoPackMatch(s: string)
    requires !Contains(s, "packs/")
    ensures PackMatchStart(s).None?
  {
    forall j: nat | j <= |s|
      ensures PackRelativeAt(s, j).None?
    {
      assert !At(s, j, "packs/");
    }
  }

  /**
   * `packs/` cannot straddle the slash after a directory that has no slash
   * and does not end with `packs`, such as a top directory or a category word.
   */
  lemma NoPacksAcross(s: string, c: string, C: string)
    requires s == c + "/" + C
    requires '/' !in c && !EndsWith(c, "packs") && !Contains(C, "packs/")
    ensures !Contains(s, "packs/")
  {
    assert s[|c| + 1..] == C;
    forall i: nat | i <= |s|
      ensures !At(s, i, "packs/")
    {
      if i > |c| {
        AtDrop(s, |c| + 1, i - |c| - 1, "packs/");
      } else if i + 5 < |c| {
        assert s[i + 5] == c[i + 5] && c[i + 5] in c;
      } else if i + 5 > |c| {
        assert s[|c|] == '/' && "packs/"[|c| - i] != '/';
      } else {
        assert c[i..] == s[i..i + 5];
      }
    }
  }

  /** A top directory followed by a slash is the alternative `(app|lib|spec)\/` takes. */
  lemma TopDirOf(t: string, d: string, rest: string)
    requires t == d + "/" + rest && d in TopDirectories
    ensures TopDirAt(t, 0) == Some(d)
    ensures t[|d| + 1..] == rest
  {
    assert t[..|d| + 1] == d + "/";
    if d == "lib" {
      assert t[0] == 'l';
    } else if d == "spec" {
      assert t[0] == 's';
    }
  }

  /** Trying `(app|lib|spec)\/` at `m` is trying it at the start of what follows `m`. */
  lemma TopDirShift(s: string, m: nat)
    requires m <= |s|
    ensures TopDirAt(s, m) == TopDirAt(s[m..], 0)
  {
    AtDrop(s, m, 0, "app/");
    AtDrop(s, m, 0, "lib/");
    AtDrop(s, m, 0, "spec/");
  }

  /** A path that starts with a top directory is matched there by the standard pattern. */
  lemma StandardAtStart(s: string, d: string, C: string)
    requires s == d + "/" + C
    requires d in TopDirectories && C != "" && NoLineBreak(C)
    ensures StandardMatchStart(s) == Some(0)
    ensures StandardRelativeAt(s, 0) == StandardRest(C)
  {
    TopDirOf(s, d, C);
  }

  /** Removing the `_spec` suffix keeps a path non-empty, free of line terminators and of `packs/`. */
  lemma RemoveSpecSuffixKeeps(X: string)
    ensures X != "" ==> RemoveSpecSuffix(X) != ""
    ensures NoLineBreak(X) ==> NoLineBreak(RemoveSpecSuffix(X))
    ensures !Contains(X, "packs/") ==> !Contains(RemoveSpecSuffix(X), "packs/")
  {
    if EndsWith(X, "_spec.rb") {
      var C := RemoveSpecSuffix(X);
      var b := |X| - 8;
      assert C == X[..b] + ".rb";
      assert forall c | c in C :: c in X || c in ".rb";
      if !Contains(X, "packs/") {
        forall i: nat | i <= |C|
          ensures !At(C, i, "packs/")
        {
          if i + 6 <= b {
            assert C[i..i + 6] == X[i..i + 6];
            assert !At(X, i, "packs/");
          } else if i + 6 <= |C| {
            assert C[i + 5] != '/' by {
              assert C[i + 5] == ".rb"[i + 5 - b];
            }
            assert C[i..i + 6][5] == C[i + 5];
          }
        }
      }
    }
  }

  /**
   * A path under `app/`, `lib/` or `spec/` with no `packs/` in it: the name
   * is built from what the standard pattern keeps of the rest, whichever of
   * the three top directories it starts with.
   */
  lemma StandardClassName(p: string, d: string, X: string)
    requires p == d + "/" + X
    requires d in TopDirectories && '\\' !in X && X != "" && NoLineBreak(X) && !Contains(X, "packs/")
    ensures StandardMatchStart(RemoveSpecSuffix(Normalize(p))) == Some(0)
    ensures InferClassName(p) == ClassName(StripRb(StandardRest(RemoveSpecSuffix(X)).value))
  {
    var C := RemoveSpecSuffix(X);
    RemoveSpecSuffixKeeps(X);
    NormalizeFixed(p);
    assert RemoveSpecSuffix(p) == d + "/" + C by {
      assert p == (d + "/") + X;
      SuffixBehindPrefix(d + "/", X);
    }
    var clean := d + "/" + C;
    NoPacksAcross(clean, d, C);
    NoPackMatch(clean);
    StandardAtStart(clean, d, C);
  }

  /** Two words differ in their first character, or both are long and differ in their fourth. */
  predicate Distinguished(c: string, w: string)
  {
    |c| > 0 && |w| > 0 && (c[0] != w[0] || (|c| >= 4 && |w| >= 4 && c[3] != w[3]))
  }

  /** Any two category words are told apart by their first or fourth character. */
  lemma CategoryWordsDistinguished()
    ensures forall c, w | c in CategoryWords && w in CategoryWords && c != w :: Distinguished(c, w)
  {
  }

  /** The category words are made of lower-case letters. */
  lemma CategoryWordsLetters()
    ensures forall w | w in CategoryWords :: forall ch | ch in w :: 'a' <= ch <= 'z'
  {
  }

  /**
   * No category word is the start of another, and none has a slash, a
   * backslash or a line terminator or ends with `packs`.
   */
  lemma CategoryWordsDistinct()
    ensures forall c, w | c in CategoryWords && w in CategoryWords && c != w :: !StartsWith(c, w)
    ensures forall w | w in CategoryWords :: '/' !in w && '\\' !in w && NoLineBreak(w)
    ensures forall w | w in CategoryWords :: !EndsWith(w, "packs")
  {
    CategoryWordsLetters();
    CategoryWordsDistinguished();
    forall c, w | c in CategoryWords && w in CategoryWords && c != w
      ensures !StartsWith(c, w)
    {
      assert Distinguished(c, w);
      if |w| <= |c| {
        assert c[..|w|][0] == c[0];
        if |w| >= 4 {
          assert c[..|w|][3] == c[3];
        }
      }
    }
    forall w | w in CategoryWords
      ensures !EndsWith(w, "packs")
    {
      assert |w| < 5 || w[|w| - 2] != 'k';
    }
  }

  /** The alternation of category words takes the word a directory is named after. */
  lemma {:induction false} FirstWordOf(t: string, words: seq<string>, c: string)
    requires c in words && StartsWith(t, c + "/")
    requires forall w | w in words :: '/' !in w
    requires forall w | w in words && w != c :: !StartsWith(c, w)
    ensures FirstWordAt(t, words) == Some(c)
    decreases |words|
  {
    var w := words[0];
    if w != c {
      if |w| <= |c| {
        assert t[..|w|] == c[..|w|];
        assert !StartsWith(c, w);
      } else {
        assert t[|c|] == '/' && w[|c|] in w;
      }
      assert c in words[1..];
      FirstWordOf(t, words[1..], c);
    }
  }

  /**
   * After `(app|lib|spec)/`, a category word and a slash are dropped and
   * the name is built from the rest.
   */
  lemma CategoryDropped(t: string, c: string, R: string)
    requires t == c + "/" + R && c in CategoryWords
    requires R != "" && NoLineBreak(R)
    ensures StandardRest(t) == Some(R)
  {
    CategoryWordsDistinct();
    assert StartsWith(t, c + "/") by {
      assert t[..|c| + 1] == c + "/";
    }
    FirstWordOf(t, CategoryWords, c);
    assert At(t, |c|, "/") && t[|c| + 1..] == R;
    assert TailStarts(t)[0] == |c| + 1;
  }

  /**
   * A path under a top directory and a category word, with no `packs/` in
   * the rest: the name is built from the rest alone.
   */
  lemma CategoryClassName(p: string, d: string, c: string, R: string)
    requires p == d + "/" + (c + "/" + R)
    requires d in TopDirectories && c in CategoryWords
    requires '\\' !in c && '\\' !in R && R != "" && NoLineBreak(R) && !Contains(R, "packs/")
    ensures InferClassName(p) == ClassName(StripRb(RemoveSpecSuffix(R)))
  {
    CategoryWordsDistinct();
    var X := c + "/" + R;
    assert '\\' !in X && NoLineBreak(X) by {
      assert forall ch | ch in X :: ch in c || ch == '/' || ch in R;
      assert NoLineBreak(c) by {
        assert forall ch | ch in c :: ch in c;
      }
    }
    NoPacksAcross(X, c, R);
    StandardClassName(p, d, X);
    RemoveSpecSuffixKeeps(R);
    assert RemoveSpecSuffix(X) == c + "/" + RemoveSpecSuffix(R) by {
      assert X == (c + "/") + R;
      SuffixBehindPrefix(c + "/", R);
    }
    CategoryDropped(RemoveSpecSuffix(X), c, RemoveSpecSuffix(R));
  }

  /** The top directory does not enter the name: `app/`, `lib/` and `spec/` give the same one. */
  lemma ClassNameAcrossTopDirs(d: string, e: string, X: string)
    requires d in TopDirectories && e in TopDirectories
    requires '\\' !in X && X != "" && NoLineBreak(X) && !Contains(X, "packs/")
    ensures InferClassName(d + "/" + X) == InferClassName(e + "/" + X)
  {
    StandardClassName(d + "/" + X, d, X);
    StandardClassName(e + "/" + X, e, X);
  }

  /**
   * When neither pattern can match (no `packs/`, `app/`, `lib/` or `spec/`
   * anywhere), the whole cleaned path is the relative path.
   */
  lemma WholePathWithoutPattern(p: string)
    requires var clean := RemoveSpecSuffix(Normalize(p));
      !Contains(clean, "packs/") && !Contains(clean, "app/") && !Contains(clean, "lib/") && !Contains(clean, "spec/")
    ensures InferClassName(p) == ClassName(StripRb(RemoveSpecSuffix(Normalize(p))))
  {
    var clean := RemoveSpecSuffix(Normalize(p));
    NoPackMatch(clean);
    forall j: nat | j <= |clean|
      ensures StandardRelativeAt(clean, j).None?
    {
      assert !At(clean, j, "app/") && !At(clean, j, "lib/") && !At(clean, j, "spec/");
    }
  }

  /** Where `packs/` sits in `A + "packs/" + name + "/" + t`, and what follows it. */
  lemma PacksAfter(s: string, A: string, name: string, t: string)
    requires s == A + "packs/" + name + "/" + t
    ensures At(s, |A|, "packs/") && s[|A| + 6..] == name + "/" + t
  {
    var u := s[|A|..];
    assert u == "packs/" + name + "/" + t by {
      assert s == A + ("packs/" + name + "/" + t);
    }
    assert u[..6] == "packs/";
    assert s[|A| + 6..] == u[6..];
  }

  /** The pack pattern matches `packs/<name>/<app|lib|spec>/` followed by a rest it captures. */
  lemma PackRelativeAtSplit(s: string, i: nat, name: string, d: string, rest: string)
    requires At(s, i, "packs/") && s[i + 6..] == name + "/" + (d + "/" + rest)
    requires name != "" && '/' !in name && d in TopDirectories
    requires rest != "" && NoLineBreak(rest)
    ensures PackRelativeAt(s, i) == Some(rest)
  {
    var t := d + "/" + rest;
    var m := i + 7 + |name|;
    assert IndexOf(s[i + 6..], '/') == Some(|name|) && s[m..] == t by {
      NameThenRest(s, i + 6, name, t);
    }
    assert TopDirAt(s, m) == Some(d) && m + |d| + 1 <= |s| && s[m + |d| + 1..] == rest by {
      TopDirShift(s, m);
      TopDirOf(t, d, rest);
      assert s[m + |d| + 1..] == t[|d| + 1..];
    }
    TopDirRestOf(s, m, d, rest);
    PackRelativeAtMatch(s, i, |name|, m, rest);
  }

  /** The steps of the pack pattern at `i`, each taken: the match captures the rest. */
  lemma PackRelativeAtMatch(s: string, i: nat, k: nat, m: nat, rest: string)
    requires PacksAt(s, i) && IndexOf(s[i + 6..], '/') == Some(k) && k != 0
    requires m == i + 7 + k && TopDirRest(s, m) == Some(rest)
    ensures PackRelativeAt(s, i) == Some(rest)
  {
    assert PackRelativeAt(s, i) == TopDirRest(s, m);
  }

  /** A top directory at `m` followed by a non-empty rest without line terminators: the rest is captured. */
  lemma TopDirRestOf(s: string, m: nat, d: string, rest: string)
    requires TopDirAt(s, m) == Some(d)
    requires m + |d| + 1 <= |s| && s[m + |d| + 1..] == rest && rest != "" && NoLineBreak(rest)
    ensures TopDirRest(s, m) == Some(rest)
  {
    assert RestMatches(s, m + |d| + 1);
  }

  /** After `packs/`, a slash-free name and a slash: the first slash ends the name. */
  lemma NameThenRest(s: string, j: nat, name: string, t: string)
    requires j <= |s| && s[j..] == name + "/" + t && '/' !in name
    ensures IndexOf(s[j..], '/') == Some(|name|) && s[j + |name| + 1..] == t
  {
    var v := s[j..];
    assert v[|name|] == '/' && v[..|name|] == name;
    IndexOfFirst(v, '/', |name|);
    assert s[j + |name| + 1..] == v[|name| + 1..];
  }

  /**
   * A path that starts with `packs/<name>/<app|lib|spec>/`: the name is
   * built from everything after those three directories. A category word
   * such as `models` is kept, unlike on the standard paths.
   */
  lemma PackClassName(p: string, name: string, d: string, X: string)
    requires p == "packs/" + name + "/" + (d + "/" + X)
    requires name != "" && '/' !in name && '\\' !in name && d in TopDirectories
    requires '\\' !in X && X != "" && NoLineBreak(X)
    ensures PackMatchStart(RemoveSpecSuffix(Normalize(p))) == Some(0)
    ensures InferClassName(p) == ClassName(StripRb(RemoveSpecSuffix(X)))
  {
    var C := RemoveSpecSuffix(X);
    RemoveSpecSuffixKeeps(X);
    assert RemoveSpecSuffix(d + "/" + X) == d + "/" + C by {
      SuffixBehindPrefix(d + "/", X);
    }
    var clean := "packs/" + name + "/" + (d + "/" + C);
    assert RemoveSpecSuffix(Normalize(p)) == clean by {
      PackCleanPath(p, name, d + "/" + X);
    }
    PackRelativeName(clean, name, d, C);
  }

  /** The relative part of a clean path that starts with `packs/<name>/<app|lib|spec>/`. */
  lemma PackRelativeName(clean: string, name: string, d: string, C: string)
    requires clean == "packs/" + name + "/" + (d + "/" + C)
    requires name != "" && '/' !in name && d in TopDirectories
    requires C != "" && NoLineBreak(C)
    ensures PackMatchStart(clean) == Some(0)
    ensures RelativeName(clean) == C
  {
    PacksAfter(clean, "", name, d + "/" + C);
    PackRelativeAtSplit(clean, 0, name, d, C);
  }

  /** Cleaning a path that starts with `packs/<name>/` only cleans what follows. */
  lemma PackCleanPath(p: string, name: string, t: string)
    requires p == "packs/" + name + "/" + t
    requires '\\' !in name && '\\' !in t
    ensures RemoveSpecSuffix(Normalize(p)) == "packs/" + name + "/" + RemoveSpecSuffix(t)
  {
    var head := "packs/" + name + "/";
    assert p == head + t;
    assert '\\' !in p by {
      assert forall c | c in p :: c in "packs/" || c in name || c in "/" || c in t;
    }
    NormalizeFixed(p);
    SuffixBehindPrefix(head, t);
  }
}
