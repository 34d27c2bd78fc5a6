/**
 * Properties of the pack pattern `^(.*\/)?packs\/([^/]+)\/(.+)$`, of the
 * prefix pattern `^(.*\/)?packs\/` and of the two pack resolvers.
 */
module PackProperties {
  import opened Text
  import opened Types
  import opened PathResolver
  import opened Classification

  /**
   * `n` read as `prefix + "packs/" + name + "/" + rest` the way the pack
   * pattern can read it: the prefix is empty or ends with a slash and has no
   * line terminator, the name is non-empty and has no slash, the rest is
   * non-empty and has no line terminator.
   */
  predicate PackSplit(n: string, prefix: string, name: string, rest: string)
  {
    n == prefix + "packs/" + name + "/" + rest
    && (prefix == "" || (EndsWith(prefix, "/") && NoLineBreak(prefix)))
    && name != "" && '/' !in name
    && rest != "" && NoLineBreak(rest)
  }

  /** A split of `n` whose prefix is at least as long as that of every other split. */
  ghost predicate LongestPackSplit(n: string, prefix: string, name: string, rest: string)
  {
    PackSplit(n, prefix, name, rest)
    && forall prefix', name', rest' | PackSplit(n, prefix', name', rest') :: |prefix'| <= |prefix|
  }

  /** What the pattern finds with its first group ending at `j` is a split of `n`. */
  lemma PackAtSplit(n: string, j: nat)
    requires j <= |n| && PackAt(n, j).Some?
    ensures PackSplit(n, n[..j], PackAt(n, j).value.packName, PackAt(n, j).value.relativePath)
  {
    var s := n[j + 6..];
    var k := IndexOf(s, '/').value;
    var name, rest := n[j + 6..j + 6 + k], n[j + 7 + k..];
    assert s[..k] == name;
    assert n[j..j + 6] == "packs/";
    assert n == n[..j] + "packs/" + name + "/" + rest by {
      assert n[j + 6 + k] == s[k];
      assert n == n[..j] + n[j..j + 6] + name + [n[j + 6 + k]] + rest;
    }
    if j > 0 {
      assert n[..j][j - 1..] == [n[j - 1]];
    }
  }

  /** Every split of `n` is what the pattern finds with its first group ending after the prefix. */
  lemma SplitPackAt(n: string, prefix: string, name: string, rest: string)
    requires PackSplit(n, prefix, name, rest)
    ensures PackAt(n, |prefix|) == Some(PackInfo(name, rest))
  {
    var j := |prefix|;
    var s := n[j + 6..];
    assert DirPrefixEndsAt(n, j) by {
      assert n[..j] == prefix;
      if j > 0 {
        assert n[j - 1] == prefix[j - 1] == prefix[j - 1..][0];
      }
    }
    assert At(n, j, "packs/") by {
      assert n[j..j + 6] == "packs/";
    }
    assert IndexOf(s, '/') == Some(|name|) by {
      assert s == name + "/" + rest;
      assert s[..|name|] == name;
      IndexOfFirst(s, '/', |name|);
    }
    assert n[j + 6..j + 6 + |name|] == name && n[j + 7 + |name|..] == rest by {
      assert n == prefix + "packs/" + name + "/" + rest;
    }
  }

  /**
   * `extractPackInfo` (src/pathResolver.ts:34-48): it returns null exactly
   * when the normalised path has no split; otherwise its result is the
   * split with the longest prefix, the one the greedy `(.*\/)?` finds.
   */
  lemma ExtractPackInfoSpec(p: string)
    ensures ExtractPackInfo(p).None? <==>
      !exists prefix, name, rest :: PackSplit(Normalize(p), prefix, name, rest)
    ensures ExtractPackInfo(p).Some? ==>
      exists prefix :: LongestPackSplit(Normalize(p), prefix,
        ExtractPackInfo(p).value.packName, ExtractPackInfo(p).value.relativePath)
  {
    var n := Normalize(p);
    if PackMatchEnd(n).None? {
      NoSplitWithoutMatch(n);
    } else {
      MatchGivesSplit(p);
    }
  }

  /** A match is a split, and the one with the longest prefix. */
  lemma MatchGivesSplit(p: string)
    requires ExtractPackInfo(p).Some?
    ensures exists prefix, name, rest :: PackSplit(Normalize(p), prefix, name, rest)
    ensures exists prefix :: LongestPackSplit(Normalize(p), prefix,
      ExtractPackInfo(p).value.packName, ExtractPackInfo(p).value.relativePath)
  {
    var n := Normalize(p);
    var j := PackMatchEnd(n).value;
    var info := PackAt(n, j).value;
    assert ExtractPackInfo(p) == Some(info);
    PackAtSplit(n, j);
    MatchIsLongestSplit(n, j);
  }

  /** With no position where the pack pattern matches, the path has no split. */
  lemma NoSplitWithoutMatch(n: string)
    requires PackMatchEnd(n).None?
    ensures !exists prefix, name, rest :: PackSplit(n, prefix, name, rest)
  {
    forall prefix, name, rest | PackSplit(n, prefix, name, rest)
      ensures PackAt(n, |prefix|).Some? && |prefix| <= |n|
    {
      SplitPackAt(n, prefix, name, rest);
    }
  }

  /** The position the greedy group ends at gives the split with the longest prefix. */
  lemma MatchIsLongestSplit(n: string, j: nat)
    requires PackMatchEnd(n) == Some(j)
    ensures LongestPackSplit(n, n[..j], PackAt(n, j).value.packName, PackAt(n, j).value.relativePath)
  {
    PackAtSplit(n, j);
    forall prefix', name', rest' | PackSplit(n, prefix', name', rest')
      ensures |prefix'| <= j
    {
      SplitPackAt(n, prefix', name', rest');
    }
  }

  /** The converse: the split with the longest prefix is what `extractPackInfo` returns. */
  lemma ExtractPackInfoLongest(p: string, prefix: string, name: string, rest: string)
    requires LongestPackSplit(Normalize(p), prefix, name, rest)
    ensures ExtractPackInfo(p) == Some(PackInfo(name, rest))
  {
    var n := Normalize(p);
    SplitPackAt(n, prefix, name, rest);
    var j := PackMatchEnd(n).value;
    assert |prefix| <= j;
    var info := PackAt(n, j).value;
    assert PackSplit(n, n[..j], info.packName, info.relativePath) by {
      PackAtSplit(n, j);
    }
    assert j <= |prefix|;
  }

  /** Where the pack pattern matches, so does the prefix pattern. */
  lemma PackAtPacksDir(n: string, j: nat)
    ensures PackAt(n, j).Some? ==> PacksDirAt(n, j)
  {
  }

  /** A split puts a slash right after the pack name, past the `packs/` directory. */
  lemma PackSplitSlash(n: string, prefix: string, name: string, rest: string)
    ensures PackSplit(n, prefix, name, rest) ==>
      7 <= |prefix| + 6 + |name| < |n| && n[|prefix| + 6 + |name|] == '/'
  {
    if PackSplit(n, prefix, name, rest) {
      assert n[|prefix| + 6 + |name|] == (prefix + "packs/" + name + "/" + rest)[|prefix| + 6 + |name|];
    }
  }

  /** Whenever the pack pattern matches, the path counts as a pack file. */
  lemma ExtractImpliesPackFile(p: string)
    ensures ExtractPackInfo(p).Some? ==> IsPackFile(p)
  {
    var n := Normalize(p);
    if ExtractPackInfo(p).Some? {
      var j := PackMatchEnd(n).value;
      var info := PackAt(n, j).value;
      PackAtSplit(n, j);
      SplitIsPackFile(n, n[..j], info.packName, info.relativePath);
      NormalizeIdempotent(p);
    }
  }

  /** A path with a split is a pack file: it starts with `packs/`, or `/packs/<name>/` occurs in it. */
  lemma SplitIsPackFile(n: string, prefix: string, name: string, rest: string)
    requires PackSplit(n, prefix, name, rest)
    requires '\\' !in n
    ensures IsPackFile(n)
  {
    NormalizeFixed(n);
    var j := |prefix|;
    if j == 0 {
      assert n[..6] == "packs/";
    } else {
      assert n[j - 1] == prefix[j - 1];
      assert n[j - 1..j + 6] == "/packs/";
      assert n[j + 6] == name[0];
      assert n[j + 6 + |name|] == '/';
      assert n[j + 7..][|name| - 1] == '/';
      assert InteriorPackAt(n, j - 1);
    }
  }

  /**
   * `packs/foo.rb` counts as a pack file (it starts with `packs/`) but the
   * pack pattern finds nothing in it, so the pack resolvers fall back to the
   * standard ones.
   */
  lemma PackFileWithoutPackInfo(p: string)
    requires p == "packs/foo.rb"
    ensures IsPackFile(p)
    ensures ExtractPackInfo(p).None?
  {
    NormalizeFixed(p);
    assert StartsWith(p, "packs/");
    NoSplitOfPacksFoo();
    ExtractPackInfoSpec(p);
  }

  /** `packs/foo.rb` has a single slash, so no name in it is followed by one. */
  lemma NoSplitOfPacksFoo()
    ensures forall prefix, name, rest :: !PackSplit("packs/foo.rb", prefix, name, rest)
  {
    var n := "packs/foo.rb";
    assert '/' !in n[7..];
    forall prefix, name, rest
      ensures !PackSplit(n, prefix, name, rest)
    {
      PackSplitSlash(n, prefix, name, rest);
      var k := |prefix| + 6 + |name|;
      assert 7 <= k < |n| ==> n[k] == n[7..][k - 7];
    }
  }

  /**
   * After a split with no further `packs/` directory (the name is not
   * `packs` and the rest has no `packs` directory), no later position can
   * end the group of `^(.*\/)?packs\/`.
   */
  lemma NoLaterPacksDir(n: string, prefix: string, name: string, rest: string)
    requires PackSplit(n, prefix, name, rest)
    requires name != "packs" && !HasDir(rest, "packs")
    ensures forall j: nat | |prefix| < j <= |n| :: !PacksDirAt(n, j)
  {
    TailWithoutPacksDir(n, prefix, name, rest);
    forall j: nat | |prefix| < j <= |n|
      ensures !PacksDirAt(n, j)
    {
      NotPacksDirAt(n, |prefix|, j);
    }
  }

  /** Where no `/packs/` occurs from `off` on, no `packs/` directory starts after `off`. */
  lemma NotPacksDirAt(n: string, off: nat, j: nat)
    requires off < j <= |n|
    requires !Contains(n[off..], "/packs/")
    ensures !PacksDirAt(n, j)
  {
    AtCons(n, j - 1, '/', "packs/");
    AtDrop(n, off, j - 1 - off, "/packs/");
    assert !At(n[off..], j - 1 - off, "/packs/");
  }

  /** After the prefix of such a split, no `/packs/` occurs. */
  lemma TailWithoutPacksDir(n: string, prefix: string, name: string, rest: string)
    requires PackSplit(n, prefix, name, rest)
    requires name != "packs" && !HasDir(rest, "packs")
    ensures !Contains(n[|prefix|..], "/packs/")
  {
    var t := n[|prefix|..];
    assert t == "packs" + ['/'] + (name + ['/'] + rest);
    PacksDelimiters();
    DelimitedAfterFirst(name, rest, "packs", '/');
    StartsWithFirstPart(name, rest, "packs", '/');
    DelimitedAfterFirst("packs", name + ['/'] + rest, "packs", '/');
  }

  /** `packs` between slashes, spelled with single characters. */
  lemma PacksDelimiters()
    ensures ['/'] + "packs" + ['/'] == "/packs/" && "packs" + ['/'] == "packs/"
  {
  }

  /**
   * A path with a single `packs` directory: the pack pattern and the prefix
   * pattern agree on the prefix, the pack name and the rest.
   */
  lemma SinglePackSplit(p: string, prefix: string, name: string, rest: string)
    requires PackSplit(Normalize(p), prefix, name, rest)
    requires name != "packs" && !HasDir(rest, "packs")
    ensures LongestPackSplit(Normalize(p), prefix, name, rest)
    ensures ExtractPackInfo(p) == Some(PackInfo(name, rest))
    ensures PackPrefix(Normalize(p)) == prefix
    ensures IsPackFile(p)
  {
    var n := Normalize(p);
    NoLaterPacksDir(n, prefix, name, rest);
    SplitIsLongest(n, prefix, name, rest);
    ExtractPackInfoLongest(p, prefix, name, rest);
    PackPrefixOfSplit(n, prefix, name, rest);
    SplitIsPackFile(n, prefix, name, rest);
    NormalizeIdempotent(p);
  }

  /** A split after which no `packs/` directory follows is the longest one. */
  lemma SplitIsLongest(n: string, prefix: string, name: string, rest: string)
    requires PackSplit(n, prefix, name, rest)
    requires forall j: nat | |prefix| < j <= |n| :: !PacksDirAt(n, j)
    ensures LongestPackSplit(n, prefix, name, rest)
  {
    forall prefix', name', rest' | PackSplit(n, prefix', name', rest')
      ensures |prefix'| <= |prefix|
    {
      SplitPackAt(n, prefix', name', rest');
      PackAtPacksDir(n, |prefix'|);
    }
  }

  /** The prefix the pack resolvers put back is the prefix of a split after which no `packs/` directory follows. */
  lemma PackPrefixOfSplit(n: string, prefix: string, name: string, rest: string)
    requires PackSplit(n, prefix, name, rest)
    requires forall j: nat | |prefix| < j <= |n| :: !PacksDirAt(n, j)
    ensures PackPrefix(n) == prefix
  {
    SplitPackAt(n, prefix, name, rest);
    assert PacksDirAt(n, |prefix|);
    var pre := PackPrefix(n);
    if pre != "" {
      assert n[|pre| - 1] == pre[|pre| - 1..][0];
      assert PacksDirAt(n, |pre|);
    }
    assert n[..|prefix|] == prefix;
  }

  /** `a + b + (c + d) == a + (b + c) + d`, the regrouping of path pieces the proofs need. */
  lemma Reassociate(a: string, b: string, c: string, d: string)
    ensures a + b + (c + d) == a + (b + c) + d
  {
  }

  /**
   * A path the pack pattern does not split goes through the standard
   * resolvers in both directions, even when it counts as a pack file.
   */
  lemma PackFallback(p: string)
    requires ExtractPackInfo(p).None?
    ensures ResolveSpecPath(p) == ResolveStandardSpecPath(Normalize(p))
    ensures ResolveImplementationPath(p) == ResolveStandardImplementationPath(Normalize(p))
  {
    NormalizeIdempotent(p);
  }

  /**
   * The spec target inside a pack keeps the prefix and `packs/<name>/` and
   * moves only the relative part under `spec/`: a leading `app/` becomes
   * `spec/`, a leading `spec/` stays, anything else gets `spec/` in front.
   */
  lemma PackSpecTargetShape(prefix: string, name: string, rest: string)
    ensures StartsWith(rest, "app/") ==>
      PackSpecTarget(prefix, PackInfo(name, rest)) == prefix + "packs/" + name + "/spec/" + InsertSpecSuffix(rest[4..])
    ensures StartsWith(rest, "spec/") ==>
      PackSpecTarget(prefix, PackInfo(name, rest)) == prefix + "packs/" + name + "/" + InsertSpecSuffix(rest)
    ensures !StartsWith(rest, "app/") && !StartsWith(rest, "spec/") ==>
      PackSpecTarget(prefix, PackInfo(name, rest)) == prefix + "packs/" + name + "/spec/" + InsertSpecSuffix(rest)
  {
    var head := prefix + "packs/" + name;
    if StartsWith(rest, "app/") {
      assert !StartsWith(rest, "spec/") by {
        assert rest[..4][0] == 'a';
      }
      MovedAppUnderSpec(head, rest);
    } else if !StartsWith(rest, "spec/") {
      MovedUnderSpec(head, rest);
    }
  }

  /** A leading `app/` of the relative part becomes `spec/`. */
  lemma MovedAppUnderSpec(head: string, rest: string)
    requires StartsWith(rest, "app/")
    ensures head + "/" + InsertSpecSuffix(SpecRelativePath(rest)) == head + "/spec/" + InsertSpecSuffix(rest[4..])
  {
    var x := rest[4..];
    assert SpecRelativePath(rest) == "spec/" + x by {
      assert "app" + "/" == "app/";
      assert "spec" + "/" == "spec/";
    }
    SuffixBehindPrefix("spec/", x);
    Reassociate(head, "/", "spec/", InsertSpecSuffix(x));
  }

  /** A relative part outside `app/` and `spec/` gets `spec/` in front. */
  lemma MovedUnderSpec(head: string, rest: string)
    requires !StartsWith(rest, "app/") && !StartsWith(rest, "spec/")
    ensures head + "/" + InsertSpecSuffix(SpecRelativePath(rest)) == head + "/spec/" + InsertSpecSuffix(rest)
  {
    SuffixBehindPrefix("spec/", rest);
    Reassociate(head, "/", "spec/", InsertSpecSuffix(rest));
  }

  /**
   * The implementation target inside a pack keeps the prefix and
   * `packs/<name>/`: a leading `spec/` of the relative part becomes `app/`,
   * and only the `_spec.rb` suffix is removed otherwise.
   */
  lemma PackImplementationTargetShape(prefix: string, name: string, rest: string)
    ensures StartsWith(rest, "spec/") ==>
      PackImplementationTarget(prefix, PackInfo(name, rest)) == prefix + "packs/" + name + "/app/" + RemoveSpecSuffix(rest[5..])
    ensures !StartsWith(rest, "spec/") ==>
      PackImplementationTarget(prefix, PackInfo(name, rest)) == prefix + "packs/" + name + "/" + RemoveSpecSuffix(rest)
  {
    var head := prefix + "packs/" + name;
    if StartsWith(rest, "spec/") {
      MovedSpecUnderApp(head, rest);
    } else {
      assert ReplaceLeadingDir(rest, "spec", "app") == rest by {
        assert "spec" + "/" == "spec/";
      }
    }
  }

  /** A leading `spec/` of the relative part becomes `app/`. */
  lemma MovedSpecUnderApp(head: string, rest: string)
    requires StartsWith(rest, "spec/")
    ensures head + "/" + RemoveSpecSuffix(ReplaceLeadingDir(rest, "spec", "app"))
      == head + "/app/" + RemoveSpecSuffix(rest[5..])
  {
    var x := rest[5..];
    DirSpellings();
    LeadingDirReplaced(rest, "spec", "app");
    SuffixBehindPrefix("app/", x);
    Reassociate(head, "/", "app/", RemoveSpecSuffix(x));
  }

  /** The top directories followed by a slash, each spelled as one literal. */
  lemma DirSpellings()
    ensures "app" + "/" == "app/" && "spec" + "/" == "spec/" && "lib" + "/" == "lib/"
  {
  }

  /** `s.replace(/^dir\//, 'repl/')` on a path that starts with `dir/`. */
  lemma LeadingDirReplaced(s: string, dir: string, repl: string)
    requires StartsWith(s, dir + "/")
    ensures ReplaceLeadingDir(s, dir, repl) == repl + "/" + s[|dir| + 1..]
  {
  }

  /**
   * Forward pack resolution keeps the prefix and `packs/<name>/` and moves
   * only the relative part under `spec/`: a leading `app/` becomes `spec/`,
   * a leading `spec/` stays, anything else gets `spec/` in front.
   */
  lemma PackForward(p: string, prefix: string, name: string, rest: string)
    requires PackSplit(Normalize(p), prefix, name, rest)
    requires name != "packs" && !HasDir(rest, "packs")
    ensures StartsWith(rest, "app/") ==>
      ResolveSpecPath(p) == prefix + "packs/" + name + "/spec/" + InsertSpecSuffix(rest[4..])
    ensures StartsWith(rest, "spec/") ==>
      ResolveSpecPath(p) == prefix + "packs/" + name + "/" + InsertSpecSuffix(rest)
    ensures !StartsWith(rest, "app/") && !StartsWith(rest, "spec/") ==>
      ResolveSpecPath(p) == prefix + "packs/" + name + "/spec/" + InsertSpecSuffix(rest)
  {
    var n := Normalize(p);
    NormalizeIdempotent(p);
    SinglePackSplit(n, prefix, name, rest);
    assert ResolveSpecPath(p) == PackSpecTarget(prefix, PackInfo(name, rest));
    PackSpecTargetShape(prefix, name, rest);
  }

  /**
   * Backward pack resolution keeps the prefix and `packs/<name>/`: a
   * leading `spec/` of the relative part becomes `app/`, and only the
   * `_spec.rb` suffix is removed otherwise.
   */
  lemma PackBackward(p: string, prefix: string, name: string, rest: string)
    requires PackSplit(Normalize(p), prefix, name, rest)
    requires name != "packs" && !HasDir(rest, "packs")
    ensures StartsWith(rest, "spec/") ==>
      ResolveImplementationPath(p) == prefix + "packs/" + name + "/app/" + RemoveSpecSuffix(rest[5..])
    ensures !StartsWith(rest, "spec/") ==>
      ResolveImplementationPath(p) == prefix + "packs/" + name + "/" + RemoveSpecSuffix(rest)
  {
    var n := Normalize(p);
    NormalizeIdempotent(p);
    SinglePackSplit(n, prefix, name, rest);
    assert ResolveImplementationPath(p) == PackImplementationTarget(prefix, PackInfo(name, rest));
    PackImplementationTargetShape(prefix, name, rest);
  }
}
