/**
 * The JavaScript string operations the path resolver and the class-name
 * inference are built from (`startsWith`, `endsWith`, `includes`,
 * `indexOf`, `lastIndexOf`, `split`, `join`), written out over `seq<char>`,
 * together with the two searches a regular-expression engine performs when
 * it tries a pattern at every position: from the right for a greedy `^(.*)`
 * group, from the left for an unanchored pattern.
 */
module Text {

  datatype Option<T> = None | Some(value: T)

  /** `s.startsWith(t)` */
  predicate StartsWith(s: string, t: string) {
    |t| <= |s| && s[..|t|] == t
  }

  /** `s.endsWith(t)` */
  predicate EndsWith(s: string, t: string) {
    |t| <= |s| && s[|s| - |t|..] == t
  }

  /** `t` occurs in `s` starting at index `i`. */
  predicate At(s: string, i: nat, t: string) {
    i + |t| <= |s| && s[i..i + |t|] == t
  }

  /** `s.includes(t)` */
  predicate Contains(s: string, t: string) {
    exists i: nat | i <= |s| :: At(s, i, t)
  }

  /**
   * The characters a regular-expression `.` does not match in JavaScript
   * (without the `s` flag): line feed, carriage return, and the Unicode line
   * and paragraph separators.
   */
  predicate IsLineTerminator(c: char) {
    c == '\n' || c == '\r' || c == '\U{2028}' || c == '\U{2029}'
  }

  /** Every character of `s` can be matched by `.`, so `.*` can span all of `s`. */
  predicate NoLineBreak(s: string) {
    forall c | c in s :: !IsLineTerminator(c)
  }

  /** `s.indexOf(c)`, with `None` for -1. */
  function IndexOf(s: string, c: char): (r: Option<nat>)
    ensures r.Some? ==> r.value < |s| && s[r.value] == c && c !in s[..r.value]
    ensures r.None? ==> c !in s
  {
    if s == [] then None
    else if s[0] == c then Some(0)
    else match IndexOf(s[1..], c)
      case None => None
      case Some(k) =>
        assert s[..k + 1] == [s[0]] + s[1..][..k];
        Some(k + 1)
  }

  /** `s.lastIndexOf(c)`, with `None` for -1. */
  function LastIndexOf(s: string, c: char): (r: Option<nat>)
    ensures r.Some? ==> r.value < |s| && s[r.value] == c && c !in s[r.value + 1..]
    ensures r.None? ==> c !in s
  {
    if s == [] then None
    else if s[|s| - 1] == c then Some(|s| - 1)
    else
      var r := LastIndexOf(s[..|s| - 1], c);
      assert s == s[..|s| - 1] + [s[|s| - 1]];
      r
  }

  /**
   * `s.split(c)`: the maximal runs of characters other than `c`, in order;
   * the empty string gives `[""]` and every `c` starts a new part.
   */
  function Split(s: string, c: char): (parts: seq<string>)
    ensures |parts| >= 1
    ensures forall i | 0 <= i < |parts| :: c !in parts[i]
    decreases |s|
  {
    match IndexOf(s, c)
    case None => [s]
    case Some(k) => [s[..k]] + Split(s[k + 1..], c)
  }

  /** `parts.join(sep)` */
  function Join(parts: seq<string>, sep: string): string
  {
    if |parts| == 0 then ""
    else if |parts| == 1 then parts[0]
    else parts[0] + sep + Join(parts[1..], sep)
  }

  /**
   * The largest `k <= hi` with `f(k)`: where a greedy `^(.*)` group ends
   * once the engine has backtracked to the first position the rest of the
   * pattern accepts.
   */
  function LastWhere(f: nat -> bool, hi: nat): (r: Option<nat>)
    ensures r.Some? ==> r.value <= hi && f(r.value)
    ensures r.Some? ==> forall k: nat | r.value < k <= hi :: !f(k)
    ensures r.None? ==> forall k: nat | k <= hi :: !f(k)
  {
    if f(hi) then Some(hi)
    else if hi == 0 then None
    else LastWhere(f, hi - 1)
  }

  /**
   * The smallest `k` in `lo..hi` with `f(k)`: where an unanchored pattern
   * matches, the engine trying each start position from the left.
   */
  function FirstWhere(f: nat -> bool, lo: nat, hi: nat): (r: Option<nat>)
    ensures r.Some? ==> lo <= r.value <= hi && f(r.value)
    ensures r.Some? ==> forall k: nat | lo <= k < r.value :: !f(k)
    ensures r.None? ==> forall k: nat | lo <= k <= hi :: !f(k)
    decreases hi - lo + 1
  {
    if lo > hi then None
    else if f(lo) then Some(lo)
    else FirstWhere(f, lo + 1, hi)
  }

  /**
   * Where the group of `^(.*)` followed by `pat` ends: the last occurrence of
   * `pat` with no line terminator before it (`.*` cannot cross one).
   */
  function GreedyPrefixEnd(s: string, pat: string): (r: Option<nat>)
    ensures r.Some? ==> At(s, r.value, pat) && NoLineBreak(s[..r.value])
    ensures r.Some? ==> forall k: nat | r.value < k <= |s| :: !(At(s, k, pat) && NoLineBreak(s[..k]))
    ensures r.None? ==> forall k: nat | k <= |s| :: !(At(s, k, pat) && NoLineBreak(s[..k]))
  {
    var f := (k: nat) => At(s, k, pat) && NoLineBreak(s[..k]);
    assert forall k: nat :: f(k) <==> At(s, k, pat) && NoLineBreak(s[..k]);
    LastWhere(f, |s|)
  }

  // ---------------------------------------------------------------------
  // Occurrences

  /** An occurrence of `c` with none before it is the one `IndexOf` reports. */
  lemma IndexOfFirst(s: string, c: char, i: nat)
    requires i < |s| && s[i] == c && c !in s[..i]
    ensures IndexOf(s, c) == Some(i)
  {
    match IndexOf(s, c)
    case None =>
    case Some(k) =>
  }

  /** Occurrences in a suffix are occurrences in the whole text, shifted. */
  lemma AtDrop(s: string, off: nat, i: nat, t: string)
    requires off <= |s|
    ensures At(s, off + i, t) <==> At(s[off..], i, t)
  {
    if off + i + |t| <= |s| {
      assert s[off..][i..i + |t|] == s[off + i..off + i + |t|];
    }
  }

  /** An occurrence of `[c] + t` is a `c` followed by an occurrence of `t`. */
  lemma AtCons(s: string, i: nat, c: char, t: string)
    ensures At(s, i, [c] + t) <==> i < |s| && s[i] == c && At(s, i + 1, t)
  {
    if i < |s| && i + 1 + |t| <= |s| {
      assert s[i..i + 1 + |t|] == [s[i]] + s[i + 1..i + 1 + |t|];
    }
  }

  /** A text with no `c` cannot hold a pattern that contains `c`. */
  lemma AbsentCharNoOccurrence(s: string, t: string, j: nat)
    requires j < |t| && t[j] !in s
    ensures !Contains(s, t)
  {
    forall i: nat | i <= |s|
      ensures !At(s, i, t)
    {
      if i + |t| <= |s| {
        assert s[i..i + |t|][j] == s[i + j];
      }
    }
  }

  /** A prefix or a suffix is an occurrence. */
  lemma EndsOccur(s: string, t: string)
    ensures StartsWith(s, t) ==> At(s, 0, t)
    ensures EndsWith(s, t) ==> At(s, |s| - |t|, t)
  {
  }

  // ---------------------------------------------------------------------
  // Splitting and joining

  /** Concatenation regrouped. */
  lemma Associate(a: string, b: string, c: string)
    ensures a + b + c == a + (b + c)
  {
  }

  /** Splitting on a character the string does not contain gives the string itself. */
  lemma SplitWithout(s: string, c: char)
    requires c !in s
    ensures Split(s, c) == [s]
  {
  }

  /** Splitting at the first `c`: the part before it, then the parts of the rest. */
  lemma SplitFirst(a: string, r: string, c: char)
    requires c !in a
    ensures Split(a + [c] + r, c) == [a] + Split(r, c)
  {
    var s := a + [c] + r;
    assert s[..|a|] == a;
    IndexOfFirst(s, c, |a|);
    assert s[|a| + 1..] == r;
  }

  /** Joining the parts of a split with the same character gives the text back. */
  lemma {:induction false} JoinSplit(s: string, c: char)
    ensures Join(Split(s, c), [c]) == s
    decreases |s|
  {
    match IndexOf(s, c)
    case None =>
    case Some(k) =>
      var a, r := s[..k], s[k + 1..];
      assert s == a + [c] + r;
      var parts := Split(r, c);
      JoinSplit(r, c);
      assert Split(s, c) == [a] + parts;
      assert ([a] + parts)[1..] == parts;
  }

  /** Splitting at a separator splits the two sides independently. */
  lemma {:induction false} SplitConcat(a: string, b: string, c: char)
    ensures Split(a + [c] + b, c) == Split(a, c) + Split(b, c)
    decreases |a|
  {
    match IndexOf(a, c)
    case None =>
      SplitFirst(a, b, c);
    case Some(k) =>
      var a1, a2 := a[..k], a[k + 1..];
      calc {
        Split(a + [c] + b, c);
        == { assert a + [c] + b == a1 + [c] + (a2 + [c] + b); SplitFirst(a1, a2 + [c] + b, c); }
        [a1] + Split(a2 + [c] + b, c);
        == { SplitConcat(a2, b, c); }
        [a1] + (Split(a2, c) + Split(b, c));
        == ([a1] + Split(a2, c)) + Split(b, c);
        == { assert a == a1 + [c] + a2; SplitFirst(a1, a2, c); }
        Split(a, c) + Split(b, c);
      }
  }

  /** In `a + [c] + r` with no `c` in `a`, the first `c` is at index `|a|`. */
  lemma FirstDelimiter(a: string, r: string, c: char)
    requires c !in a
    ensures forall p | 0 <= p < |a| :: (a + [c] + r)[p] != c
  {
    var s := a + [c] + r;
    forall p | 0 <= p < |a|
      ensures s[p] != c
    {
      assert s[p] == a[p];
    }
  }

  /**
   * Splitting `a + [c] + r` at its first `c`: an occurrence of `[c] + w + [c]`
   * (`w` without `c`) either starts at that first `c`, so `r` starts with
   * `w + [c]`, or lies inside `r`.
   */
  lemma DelimitedAfterFirst(a: string, r: string, w: string, c: char)
    requires c !in a && c !in w
    ensures Contains(a + [c] + r, [c] + w + [c])
        <==> StartsWith(r, w + [c]) || Contains(r, [c] + w + [c])
  {
    var s := a + [c] + r;
    var t := [c] + w + [c];
    if Contains(s, t) {
      var i: nat :| i <= |s| && At(s, i, t);
      DelimitedOccurrence(a, r, w, c, i);
    }
    if StartsWith(r, w + [c]) || Contains(r, t) {
      DelimitedInRest(a, r, w, c);
    }
  }

  /** One occurrence of `[c] + w + [c]` in `a + [c] + r`, read in `r`. */
  lemma DelimitedOccurrence(a: string, r: string, w: string, c: char, i: nat)
    requires c !in a && c !in w
    requires At(a + [c] + r, i, [c] + w + [c])
    ensures StartsWith(r, w + [c]) || Contains(r, [c] + w + [c])
  {
    var s := a + [c] + r;
    var t := [c] + w + [c];
    var off := |a| + 1;
    assert s[off..] == r;
    FirstDelimiter(a, r, c);
    assert s[i] == c by { assert s[i..i + |t|][0] == s[i]; }
    if i == |a| {
      assert s[off..off + |w| + 1] == s[i..i + |t|][1..];
      assert t[1..] == w + [c];
      assert r[..|w| + 1] == s[off..off + |w| + 1];
    } else {
      AtDrop(s, off, i - off, t);
    }
  }

  /** Occurrences in `r` of either shape give an occurrence in `a + [c] + r`. */
  lemma DelimitedInRest(a: string, r: string, w: string, c: char)
    requires StartsWith(r, w + [c]) || Contains(r, [c] + w + [c])
    ensures Contains(a + [c] + r, [c] + w + [c])
  {
    var s := a + [c] + r;
    var t := [c] + w + [c];
    var off := |a| + 1;
    assert s[off..] == r;
    if StartsWith(r, w + [c]) {
      assert s[|a|..|a| + |t|] == [c] + r[..|w| + 1];
      assert At(s, |a|, t);
    } else {
      var i: nat :| i <= |r| && At(r, i, t);
      AtDrop(s, off, i, t);
      assert At(s, off + i, t);
    }
  }

  /** The text before the first `c` is `w` exactly when the text starts with `w + [c]`. */
  lemma StartsWithFirstPart(a: string, r: string, w: string, c: char)
    requires c !in a && c !in w
    ensures StartsWith(a + [c] + r, w + [c]) <==> a == w
  {
    var s := a + [c] + r;
    FirstDelimiter(a, r, c);
    var u := w + [c];
    if StartsWith(s, u) {
      assert s[|w|] == c by { assert s[..|u|][|w|] == s[|w|]; }
      assert s[|a|] == c;
      if |a| < |u| {
        assert s[|a|] == u[|a|] by { assert s[..|u|][|a|] == s[|a|]; }
      }
      assert s[..|a|] == a;
      assert s[..|w|] == s[..|u|][..|w|];
    }
    if a == w {
      assert s[..|w| + 1] == w + [c];
    }
  }

  /** The text after the first `c` ends with `[c] + w` exactly when it is `w` or ends with `[c] + w`. */
  lemma EndsWithAfterFirst(a: string, r: string, w: string, c: char)
    requires c !in a && c !in w
    ensures EndsWith(a + [c] + r, [c] + w) <==> r == w || EndsWith(r, [c] + w)
  {
    var s := a + [c] + r;
    var t := [c] + w;
    FirstDelimiter(a, r, c);
    if EndsWith(s, t) {
      var i := |s| - |t|;
      assert s[i] == c by { assert s[i..][0] == s[i]; }
      if i == |a| {
        assert r == s[i + 1..];
        assert s[i + 1..] == s[i..][1..];
        assert t[1..] == w;
      } else {
        assert r[|r| - |t|..] == s[i..];
      }
    }
    if r == w {
      assert s[|a|..] == t;
    }
    if EndsWith(r, t) {
      assert s[|s| - |t|..] == r[|r| - |t|..];
    }
  }

  /**
   * `w` (without `c`) is one of the parts of `s.split(c)` exactly when `s`
   * is `w`, starts with `w + [c]`, ends with `[c] + w`, or contains
   * `[c] + w + [c]`: the four places a whole part can sit.
   */
  lemma {:induction false} SplitMember(s: string, w: string, c: char)
    requires c !in w
    ensures w in Split(s, c)
        <==> s == w || StartsWith(s, w + [c]) || EndsWith(s, [c] + w) || Contains(s, [c] + w + [c])
    decreases |s|
  {
    match IndexOf(s, c)
    case None =>
      AbsentCharNoOccurrence(s, [c] + w + [c], 0);
      AbsentCharNoOccurrence(s, w + [c], |w|);
      AbsentCharNoOccurrence(s, [c] + w, 0);
      EndsOccur(s, w + [c]);
      EndsOccur(s, [c] + w);
    case Some(k) =>
      var a, r := s[..k], s[k + 1..];
      assert s == a + [c] + r;
      SplitMember(r, w, c);
      StartsWithFirstPart(a, r, w, c);
      EndsWithAfterFirst(a, r, w, c);
      DelimitedAfterFirst(a, r, w, c);
      assert s != w by { assert s[k] == c; }
      SplitFirst(a, r, c);
  }
}
