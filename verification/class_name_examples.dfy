/**
 * The examples in the documentation comment of `inferClassName`
 * (src/fileCreator.ts), each stated for every word or segment of the shape
 * the example has, and how pack paths and spec paths are named.
 */
module ClassNameExamples {
  import opened Text
  import opened PathResolver
  import opened Classification
  import opened FileCreator
  import opened ClassNameProperties

  /** A Ruby file whose stem does not end with `_spec`: the suffixes come off as `.rb` alone. */
  lemma RubyFile(X: string)
    requires !EndsWith(X, "_spec")
    ensures RemoveSpecSuffix(X + ".rb") == X + ".rb"
    ensures StripRb(X + ".rb") == X
  {
    var R := X + ".rb";
    assert R[..|R| - 3] == X;
  }

  /** A stem with no slash, backslash or line terminator makes a file name the patterns take whole. */
  lemma PlainFile(X: string)
    requires '/' !in X && '\\' !in X && NoLineBreak(X)
    ensures '\\' !in X + ".rb" && NoLineBreak(X + ".rb") && X + ".rb" != ""
    ensures !Contains(X + ".rb", "packs/")
  {
    assert forall ch | ch in X + ".rb" :: ch in X || ch in ".rb";
    AbsentCharNoOccurrence(X + ".rb", "packs/", 5);
  }

  /** A word has no `_spec` ending: that ending holds an underscore. */
  lemma WordNotSpec(w: string)
    requires '_' !in w
    ensures !EndsWith(w, "_spec")
  {
    if |w| >= 5 {
      assert w[|w| - 5] in w;
    }
  }

  /** `app/models/user.rb` is named `User`: every `app/models/<word>.rb` is named after the word, capitalized. */
  lemma ModelExample(p: string, w: string)
    requires p == "app/models/" + w + ".rb"
    requires '_' !in w && '/' !in w && '\\' !in w && NoLineBreak(w)
    ensures InferClassName(p) == Capitalize(w)
  {
    assert p == "app" + "/" + ("models" + "/" + (w + ".rb"));
    PlainFile(w);
    WordNotSpec(w);
    RubyFile(w);
    CategoryClassName(p, "app", "models", w + ".rb");
    ClassNameOne(w);
    CamelizeOne(w);
  }

  /**
   * `app/services/payment_processor.rb` is named `PaymentProcessor`: every
   * `app/services/<segment>.rb` is named after the segment in PascalCase.
   */
  lemma ServiceExample(p: string, s: string)
    requires p == "app/services/" + s + ".rb"
    requires '/' !in s && '\\' !in s && NoLineBreak(s) && !EndsWith(s, "_spec")
    ensures InferClassName(p) == Camelize(s)
  {
    assert p == "app" + "/" + ("services" + "/" + (s + ".rb"));
    PlainFile(s);
    RubyFile(s);
    CategoryClassName(p, "app", "services", s + ".rb");
    ClassNameOne(s);
  }

  /**
   * `app/lib/donor_sync/group_i/demographics.rb` is named
   * `DonorSync::GroupI::Demographics`: under `app/lib/`, two directories and
   * a file give three components, each in PascalCase.
   */
  lemma LibExample(p: string, s1: string, s2: string, f: string)
    requires p == "app/lib/" + s1 + "/" + s2 + "/" + f + ".rb"
    requires '/' !in s1 && '\\' !in s1 && NoLineBreak(s1) && !EndsWith(s1, "packs")
    requires '/' !in s2 && '\\' !in s2 && NoLineBreak(s2) && !EndsWith(s2, "packs")
    requires '/' !in f && '\\' !in f && NoLineBreak(f) && !EndsWith(f, "_spec")
    ensures InferClassName(p) == Camelize(s1) + "::" + Camelize(s2) + "::" + Camelize(f)
  {
    LibRelative(p, s1, s2, f);
    ThreeSegments(s1, s2, f);
  }

  /** The path under `app/lib/` is the relative path the name is built from. */
  lemma LibRelative(p: string, s1: string, s2: string, f: string)
    requires p == "app/lib/" + s1 + "/" + s2 + "/" + f + ".rb"
    requires '/' !in s1 && '\\' !in s1 && NoLineBreak(s1) && !EndsWith(s1, "packs")
    requires '/' !in s2 && '\\' !in s2 && NoLineBreak(s2) && !EndsWith(s2, "packs")
    requires '/' !in f && '\\' !in f && NoLineBreak(f) && !EndsWith(f, "_spec")
    ensures InferClassName(p) == ClassName(s1 + "/" + s2 + "/" + f)
  {
    LibPathShape(p, s1, s2, f);
    TwoDirsPlain(s1, s2, f);
    CategoryRuby(p, "app", "lib", s1 + "/" + s2 + "/", f);
  }

  /** `app/lib/<s1>/<s2>/<f>.rb` regrouped as the patterns read it. */
  lemma LibPathShape(p: string, s1: string, s2: string, f: string)
    requires p == "app/lib/" + s1 + "/" + s2 + "/" + f + ".rb"
    ensures p == "app" + "/" + ("lib" + "/" + ((s1 + "/" + s2 + "/") + (f + ".rb")))
  {
  }

  /** Two plain directories and a plain file make a rest the patterns take whole. */
  lemma TwoDirsPlain(s1: string, s2: string, f: string)
    requires '/' !in s1 && '\\' !in s1 && NoLineBreak(s1) && !EndsWith(s1, "packs")
    requires '/' !in s2 && '\\' !in s2 && NoLineBreak(s2) && !EndsWith(s2, "packs")
    requires '/' !in f && '\\' !in f && NoLineBreak(f)
    ensures var R := (s1 + "/" + s2 + "/") + (f + ".rb");
      '\\' !in R && NoLineBreak(R) && R != "" && !Contains(R, "packs/")
  {
    var tail := s2 + "/" + (f + ".rb");
    var R := s1 + "/" + tail;
    assert R == (s1 + "/" + s2 + "/") + (f + ".rb");
    PlainFile(f);
    NoPacksAcross(tail, s2, f + ".rb");
    NoPacksAcross(R, s1, tail);
    assert forall ch | ch in R :: ch in s1 || ch in s2 || ch in f + ".rb" || ch == '/';
  }

  /**
   * A Ruby file `<D><f>.rb` under a category directory: the name is built
   * from `<D><f>`, the path after the category with its extension removed.
   */
  lemma CategoryRuby(p: string, d: string, c: string, D: string, f: string)
    requires p == d + "/" + (c + "/" + (D + (f + ".rb")))
    requires d in TopDirectories && c in CategoryWords && '\\' !in c
    requires D == "" || D[|D| - 1] == '/'
    requires !EndsWith(f, "_spec")
    requires var R := D + (f + ".rb");
      '\\' !in R && R != "" && NoLineBreak(R) && !Contains(R, "packs/")
    ensures InferClassName(p) == ClassName(D + f)
  {
    var R := D + (f + ".rb");
    CategoryClassName(p, d, c, R);
    RubyFile(f);
    SuffixBehindPrefix(D, f + ".rb");
    Associate(D, f, ".rb");
  }

  /** Three slash-free segments give three components joined with `::`. */
  lemma ThreeSegments(s1: string, s2: string, f: string)
    requires '/' !in s1 && '/' !in s2 && '/' !in f
    ensures ClassName(s1 + "/" + s2 + "/" + f) == Camelize(s1) + "::" + Camelize(s2) + "::" + Camelize(f)
  {
    Associate(s1 + "/", s2, "/");
    Associate(s1 + "/", s2 + "/", f);
    ClassNameCons(s1, s2 + "/" + f);
    ClassNameCons(s2, f);
    ClassNameOne(f);
  }

  /** Two words joined by an underscore, such as `donor_sync` or `payment_processor`, give two capitalized words. */
  lemma TwoWordSegment(a: string, b: string)
    requires '_' !in a && '_' !in b
    ensures Camelize(a + "_" + b) == Capitalize(a) + Capitalize(b)
  {
    CamelizeTwoWords(a + "_" + b, a, b);
  }

  /**
   * `packs/<name>/app/models/<word>.rb` is named `Models::<Word>`: the pack
   * pattern keeps the directory under `app/`, category or not, where the
   * standard pattern drops a category directory.
   */
  lemma PackModelExample(p: string, name: string, c: string, w: string)
    requires p == "packs/" + name + "/app/" + c + "/" + w + ".rb"
    requires name != "" && '/' !in name && '\\' !in name
    requires c != "" && '/' !in c && '\\' !in c && NoLineBreak(c)
    requires '_' !in w && '/' !in w && '\\' !in w && NoLineBreak(w)
    ensures InferClassName(p) == Camelize(c) + "::" + Capitalize(w)
  {
    PackModelRelative(p, name, c, w);
    ClassNameCons(c, w);
    ClassNameOne(w);
    CamelizeOne(w);
  }

  /** In a pack, the path after `app/` is the relative path the name is built from. */
  lemma PackModelRelative(p: string, name: string, c: string, w: string)
    requires p == "packs/" + name + "/app/" + c + "/" + w + ".rb"
    requires name != "" && '/' !in name && '\\' !in name
    requires c != "" && '/' !in c && '\\' !in c && NoLineBreak(c)
    requires '_' !in w && '/' !in w && '\\' !in w && NoLineBreak(w)
    ensures InferClassName(p) == ClassName(c + "/" + w)
  {
    PackModelShape(p, name, c, w);
    DirFilePlain(c, w);
    WordNotSpec(w);
    PackRuby(p, name, "app", c + "/", w);
  }

  /** `packs/<name>/app/<c>/<w>.rb` regrouped as the pack pattern reads it. */
  lemma PackModelShape(p: string, name: string, c: string, w: string)
    requires p == "packs/" + name + "/app/" + c + "/" + w + ".rb"
    ensures p == "packs/" + name + "/" + ("app" + "/" + ((c + "/") + (w + ".rb")))
  {
  }

  /** `<c>/<w>.rb` is a rest the patterns take whole. */
  lemma DirFilePlain(c: string, w: string)
    requires '\\' !in c && NoLineBreak(c)
    requires '/' !in w && '\\' !in w && NoLineBreak(w)
    ensures var X := (c + "/") + (w + ".rb"); '\\' !in X && NoLineBreak(X) && X != ""
  {
    PlainFile(w);
    var X := (c + "/") + (w + ".rb");
    assert forall ch | ch in X :: ch in c || ch == '/' || ch in w + ".rb";
  }

  /**
   * A Ruby file `<D><f>.rb` under a top directory of a pack: the name is
   * built from `<D><f>`, the path after the top directory with its extension
   * removed.
   */
  lemma PackRuby(p: string, name: string, d: string, D: string, f: string)
    requires p == "packs/" + name + "/" + (d + "/" + (D + (f + ".rb")))
    requires name != "" && '/' !in name && '\\' !in name && d in TopDirectories
    requires D == "" || D[|D| - 1] == '/'
    requires !EndsWith(f, "_spec")
    requires var X := D + (f + ".rb"); '\\' !in X && X != "" && NoLineBreak(X)
    ensures InferClassName(p) == ClassName(D + f)
  {
    var X := D + (f + ".rb");
    PackClassName(p, name, d, X);
    RubyFile(f);
    SuffixBehindPrefix(D, f + ".rb");
    Associate(D, f, ".rb");
  }
}
