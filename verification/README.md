# spec-warp-rails path resolver, in Dafny

This project models the part of the spec-warp-rails editor extension that
works out, for a file in a Rails project, where its RSpec spec lives, and for
a spec, where its implementation lives. It covers both the usual Rails layout
(`app/`, `lib/`, `spec/`) and packwerk packs (`packs/<name>/app/…`,
`packs/<name>/spec/…`). It also models how the extension names the Ruby
constant a new spec describes, and the spec template it fills in.

Every operation of the source is a total string function, and so is every
operation here:

- `types.dfy` (module `Types`) has the two records of `src/types.ts`:
  `PackInfo`, and `PathResolutionResult` with an optional pack name.
- `text.dfy` (module `Text`) has the string searches the regular expressions
  are built from. A greedy `^(.*)X` is the last position at which `X` can
  follow. An unanchored pattern is the leftmost position at which it
  matches. `.` does not match a line terminator, as in JavaScript.
- `path_resolver.dfy` (module `PathResolver`) holds `isSpecFile`,
  `isPackFile`, `extractPackInfo`, the forward and backward resolvers
  (standard and pack variants), `RAILS_APP_DIRECTORIES`, the two suffix
  helpers and `togglePath`. Each regular expression is a dedicated matcher.
- `file_creator.dfy` (module `FileCreator`) holds `inferClassName` and
  `generateSpecContent`.
- The remaining modules prove properties:
  - `Classification`: the classifiers and the suffix helpers.
  - `PackProperties`: the pack splitter and the pack resolvers.
  - `StandardProperties`: the standard resolvers.
  - `RoundTrips` and `Toggle`: going to the spec and back.
  - `ClassNameProperties` and `ClassNameExamples`: class names.
  - `ClassNamePrefix`: class names of paths behind a directory prefix, such
    as the absolute paths the editor passes.
  - `SpecContent`: the spec template.

The pack splitter's pattern `^(.*\/)?packs\/…` (src/pathResolver.ts:38) is
greedy: it takes the last `packs/` directory that is followed by a name and a
non-empty rest, not the first. `PathResolver.PackMatchEnd` is that last
position, and `PackProperties.ExtractPackInfoSpec` states it.

## Model

| member | source | states |
|---|---|---|
| PathResolver.Normalize | src/pathResolver.ts:8 | Every backslash becomes a slash and every other character stays where it is; the result has no backslash. |
| PathResolver.PackMatchEnd | src/pathResolver.ts:38 | The greedy `^(.*\/)?` of the pack pattern: the position found is one where `packs/<name>/<rest>` matches, and none after it does; when nothing is found, no position matches. |
| PathResolver.PackPrefix | src/pathResolver.ts:91-92 | The prefix regex of the pack resolvers: empty or ending with `/`, followed by `packs/`, and no `packs/` directory starts after it. |
| Text.Split | src/pathResolver.ts:17 | `split('/')`: at least one part, and no part contains the separator. |
| Text.JoinSplit | src/fileCreator.ts:36-45 | Joining the parts of a split with the separator gives the string back. |
| Text.SplitMember | src/pathResolver.ts:17-18 | A string without the separator is one of the parts exactly when the path is it, starts with it and a separator, ends with a separator and it, or holds it between two separators. |
| Text.GreedyPrefixEnd | src/pathResolver.ts:202 | A greedy `^(.*)X`: `X` occurs at the position found with no line terminator before it, and at no later such position; when nothing is found, no position qualifies. |
| Classification.NormalizeIdempotent | src/pathResolver.ts:8 | Normalising twice is normalising once. |
| Classification.IsSpecFileIff | src/pathResolver.ts:7-19 | A path is a spec exactly when, normalised, it ends with `_spec.rb` or has a `spec` segment: it is `spec`, or starts with `spec/`, ends with `/spec` or contains `/spec/`. |
| Classification.SpecSegmentIsSpecFile | src/pathResolver.ts:17-18 | A path one of whose `/`-separated segments is `spec` is a spec file. |
| Classification.NormalizeKeepsSegment | src/pathResolver.ts:8 | A segment without backslashes is still a segment after normalising. |
| Classification.InteriorPackIsPacksDir | src/pathResolver.ts:27 | Where `/packs/<name>/` matches, the path has a `packs` directory. |
| Classification.NotPackFile | src/pathResolver.ts:24-28 | A path with no `packs` segment is not a pack file. |
| Classification.InsertSpecSuffixShape | src/pathResolver.ts:231-236 | `insertSpecSuffix` leaves `_spec.rb` paths alone, turns `x.rb` into `x_spec.rb`, and leaves paths not ending in `.rb` alone. |
| Classification.InsertSpecSuffixIdempotent | src/pathResolver.ts:231-236 | Inserting the suffix twice is inserting it once. |
| Classification.InsertSpecSuffixNoDouble | src/pathResolver.ts:231-236 | The result ends with `_spec_spec.rb` only if the input already did. |
| Classification.RemoveAfterInsert | src/pathResolver.ts:231-243 | Removing after inserting gives back every path not ending with `_spec.rb`. |
| Classification.RemoveAfterInsertAny | src/pathResolver.ts:231-243 | For every path, removing after inserting is removing alone. |
| Classification.SuffixPassThrough | src/pathResolver.ts:231-243 | A path not ending in `.rb` passes through both suffix helpers unchanged. |
| Classification.SpecSuffixIsRb | src/pathResolver.ts:232 | A path ending with `_spec.rb` ends with `.rb`. |
| Classification.RemoveSpecSuffixNotIdempotent | src/pathResolver.ts:241-243 | `a_spec_spec.rb` loses one `_spec` per call: it becomes `a_spec.rb`, then `a.rb`. |
| Classification.SuffixBehindPrefix | src/pathResolver.ts:231-243 | Behind a directory prefix ending in `/`, both suffix helpers act only on the part after the prefix. |
| Classification.InsertKeepsDirWords | src/pathResolver.ts:231-236 | Inserting the suffix adds and removes no `spec` or `packs` segment, and keeps the first segment of a path with a slash. |
| Classification.InsertSpecSuffixSegments | src/pathResolver.ts:231-236 | A segment without `/` that does not end in `.rb` is a segment after inserting the suffix exactly when it was one before. |
| PackProperties.PackAtSplit | src/pathResolver.ts:38 | Where the pack pattern matches, the path is `prefix + "packs/" + name + "/" + rest`: the prefix is empty or ends with `/`, the name is non-empty without `/`, the rest is non-empty without line terminators. |
| PackProperties.SplitPackAt | src/pathResolver.ts:38 | Conversely, every such split is matched at the end of its prefix, with that name and rest. |
| PackProperties.ExtractPackInfoSpec | src/pathResolver.ts:34-48 | `extractPackInfo` is null exactly when the normalised path has no pack split; otherwise it returns the name and rest of the split with the longest prefix. |
| PackProperties.MatchIsLongestSplit | src/pathResolver.ts:38 | The split at the position the greedy matcher finds has no longer-prefixed split after it. |
| PackProperties.ExtractPackInfoLongest | src/pathResolver.ts:34-48 | The split with the longest prefix is the one `extractPackInfo` returns. |
| PackProperties.ExtractImpliesPackFile | src/pathResolver.ts:24-48 | A path `extractPackInfo` splits is a pack file. |
| PackProperties.SplitIsPackFile | src/pathResolver.ts:27 | A normalised path with a pack split is a pack file, whether its `packs` is at the start or after a `/`. |
| PackProperties.PackFileWithoutPackInfo | src/pathResolver.ts:27 | `packs/foo.rb` is a pack file, yet `extractPackInfo` returns null for it. |
| PackProperties.NoSplitOfPacksFoo | src/pathResolver.ts:38 | `packs/foo.rb` has no pack split at all. |
| PackProperties.PackFallback | src/pathResolver.ts:71-74 | When `extractPackInfo` returns null, both resolvers give what the standard resolvers give on the normalised path, pack file or not. |
| PackProperties.NoLaterPacksDir | src/pathResolver.ts:91 | With one `packs` directory in play, no `packs/` directory starts after the split's prefix. |
| PackProperties.SinglePackSplit | src/pathResolver.ts:34-48 | With one `packs` directory in play, `extractPackInfo` returns that split's name and rest, the prefix regex finds the same prefix, and the path is a pack file. |
| PackProperties.PackPrefixOfSplit | src/pathResolver.ts:91-92 | When no `packs/` directory follows a split's prefix, the prefix regex returns exactly that prefix. |
| PackProperties.SplitIsLongest | src/pathResolver.ts:38 | A split followed by no `packs/` directory is the one with the longest prefix. |
| PackProperties.PackSpecTargetShape | src/pathResolver.ts:76-94 | In a pack, a leading `app/` of the relative path becomes `spec/`, a leading `spec/` stays, and anything else gets `spec/` in front; the suffix is then inserted. |
| PackProperties.PackImplementationTargetShape | src/pathResolver.ts:152-167 | In a pack, a leading `spec/` of the relative path becomes `app/`, anything else stays; the suffix is then removed. |
| PackProperties.PackForward | src/pathResolver.ts:53-95 | For a pack file with one `packs` directory, the spec path keeps the prefix and `packs/<name>/` and changes only the relative part, by the three cases above. |
| PackProperties.PackBackward | src/pathResolver.ts:130-168 | For a pack file with one `packs` directory, the implementation path keeps the prefix and `packs/<name>/` and changes only the relative part, by the two cases above. |
| StandardProperties.GreedyAtDir | src/pathResolver.ts:105 | `^(.*)\/d\/` matches at the last interior `/d/`: after `P/d/`, with no further `/d/` in the rest, it ends the prefix at `P`. |
| StandardProperties.ReplaceLastDirAt | src/pathResolver.ts:105 | The first replace turns the last interior `/d/` into `/spec/` and keeps the text before and after it. |
| StandardProperties.MoveLeadingDir | src/pathResolver.ts:105 | A single leading `d/` is turned into `spec/` by the second replace. |
| StandardProperties.MoveInnerDir | src/pathResolver.ts:105 | A single interior `/d/` is turned into `/spec/`, and the second replace then leaves the path alone. |
| StandardProperties.LeadingDirUntouched | src/pathResolver.ts:105 | The second replace does nothing when the first segment is not the directory. |
| StandardProperties.ForwardAppHead | src/pathResolver.ts:100-125 | `app/X` goes to `spec/X_spec`, even when `X` has a `lib` directory, so `app/lib/…` goes to `spec/lib/…`. |
| StandardProperties.ForwardAppInner | src/pathResolver.ts:104-105 | `P/app/X` goes to `P/spec/X_spec`: the text before the directory is kept, including a leading `/`. |
| StandardProperties.ForwardAppBoth | src/pathResolver.ts:104-105 | `app/X/app/Y`, with no `app` segment in `Y`, goes to `spec/X/spec/Y_spec`: the first replace rewrites the last interior `/app/` and the second the leading `app/`. |
| StandardProperties.MovedWithApp | src/pathResolver.ts:104-105 | A path with an `app` directory goes through both replaces and then gets the `_spec` suffix. |
| StandardProperties.LeadingAppReplaced | src/pathResolver.ts:105 | The second replace turns a leading `app/` into `spec/` and keeps the rest. |
| StandardProperties.ForwardLibHead | src/pathResolver.ts:106-110 | `lib/X` goes to `spec/X_spec`, so `lib/my_gem.rb` goes to `spec/my_gem_spec.rb`. |
| StandardProperties.ForwardLibInner | src/pathResolver.ts:106-110 | `P/lib/X` goes to `P/spec/X_spec` when there is no `app` directory. |
| StandardProperties.ForwardOther | src/pathResolver.ts:111-116 | A path `D/F` with no `app`, `lib` or `spec` segment gets `spec` as the file's new parent: `D/spec/F_spec`. |
| StandardProperties.ForwardBare | src/pathResolver.ts:117 | A bare file name `F` goes to `spec/F_spec`. |
| StandardProperties.ForwardSpecPresent | src/pathResolver.ts:111-122 | A path with a `spec/` directory and no `app` or `lib` segment is left as it is except for the `_spec` suffix. |
| StandardProperties.SpecSplitInner | src/pathResolver.ts:202 | `^(.*)\/spec\/(.*)$` splits `P/spec/X` into `P` and `X` when `X` has no `spec` segment. |
| StandardProperties.SpecSplitHead | src/pathResolver.ts:202 | `spec/X` is split by the second pattern into an empty prefix and `X`. |
| StandardProperties.BackwardInner | src/pathResolver.ts:196-226 | `P/spec/X` goes back to `P/app/X` or `P/lib/X` by the first directory of `X`, without the `_spec` suffix; an empty `P` (the path `/spec/X`) gives `app/X` or `lib/X`, losing the leading slash. |
| StandardProperties.BackwardFromSplit | src/pathResolver.ts:205-223 | Whatever the spec patterns split a path into, the result is the prefix, then `app/` or `lib/`, then the relative part without the suffix. |
| StandardProperties.BackwardHead | src/pathResolver.ts:200-223 | `spec/X` goes back to `app/X` when the first directory of `X` is a Rails app directory and to `lib/X` otherwise, so `spec/support/helpers.rb` goes to `lib/support/helpers.rb`. |
| StandardProperties.BackwardNoSpecDir | src/pathResolver.ts:200-223 | A path with no `spec` segment only loses its `_spec` suffix. |
| RoundTrips.RailsDirectoriesAreNotFiles | src/pathResolver.ts:173-191 | No Rails app directory name ends in `.rb`, so inserting the suffix never changes a first directory. |
| RoundTrips.ImplementationBaseOfInsert | src/pathResolver.ts:209-210 | Inserting the suffix does not change whether a path maps back to `app/` or `lib/`. |
| RoundTrips.SpecHeadBackward | src/pathResolver.ts:196-226 | The spec `spec/X_spec` of a plain `X` goes back to `app/X` or `lib/X`, by the first directory of `X`. |
| RoundTrips.AppRoundTrip | src/test/pathResolver.test.ts:300-322 | `app/X` under a Rails app directory goes to `spec/X_spec` and back to `app/X`. |
| RoundTrips.LibRoundTrip | src/test/pathResolver.test.ts:300-322 | `lib/X` whose first segment is not a Rails app directory goes to `spec/X_spec` and back to `lib/X`. |
| RoundTrips.AppOutsideAllowlist | src/pathResolver.ts:209-217 | `app/X` whose first directory is not a Rails app directory comes back as `lib/X`, so the round trip fails there. |
| RoundTrips.LibUnderAppDirectory | src/pathResolver.ts:209-217 | `lib/X` whose first directory is a Rails app directory comes back as `app/X`, so the round trip fails there too. |
| RoundTrips.AppInnerRoundTrip | src/test/pathResolver.test.ts:300-322 | `P/app/X` under a Rails app directory goes to `P/spec/X_spec` and back to `P/app/X`. |
| RoundTrips.AppInnerForward | src/pathResolver.ts:53-63 | The forward half of the above for a path that is not a pack file. |
| RoundTrips.AppInnerBackward | src/pathResolver.ts:130-140 | The backward half of the above, for a non-empty `P`. |
| RoundTrips.PackRoundTrip | src/test/pathResolver.test.ts:300-322 | `<prefix>packs/<name>/app/X` with one `packs` directory goes to `…/spec/X_spec` and back. |
| RoundTrips.PackAppForward | src/pathResolver.ts:68-95 | `<prefix>packs/<name>/app/X` goes to `<prefix>packs/<name>/spec/X_spec`. |
| RoundTrips.PackSpecBackward | src/pathResolver.ts:145-168 | `<prefix>packs/<name>/spec/Y` goes to `<prefix>packs/<name>/app/Y` without the suffix. |
| RoundTrips.PackSpecBackwardOfInsert | src/pathResolver.ts:145-168 | The spec `<prefix>packs/<name>/spec/X_spec` goes back to `<prefix>packs/<name>/app/X`. |
| FileCreator.TopDirAt | src/fileCreator.ts:20 | `(app\|lib\|spec)\/` at a position: the directory found is one of the three and is followed by `/` there; when none is found, none of the three is there. |
| FileCreator.PackRelativeAt | src/fileCreator.ts:20 | What the pack pattern captures at a position is non-empty, has no line terminator and ends the path. |
| FileCreator.PackMatchStart | src/fileCreator.ts:20-22 | The pack pattern is found at the leftmost position where it matches, and nowhere when no position matches. |
| FileCreator.FirstWordAt | src/fileCreator.ts:25 | The category alternation takes the first listed word the text starts with, and none when it starts with none. |
| FileCreator.FirstRest | src/fileCreator.ts:25 | The backtracking order of the optional groups: the first start at which `(.+)$` matches, or none when it matches at none. |
| FileCreator.StandardRest | src/fileCreator.ts:25 | After `(app\|lib\|spec)\/`, a non-empty text without line terminators always gives a capture, and the capture ends the text. |
| FileCreator.StandardMatchStart | src/fileCreator.ts:25-28 | The standard pattern is found at the leftmost position where it matches, and nowhere when no position matches. |
| FileCreator.RelativeName | src/fileCreator.ts:17-29 | The relative path the name is built from is an ending of the cleaned path; which ending, for a path behind a directory prefix, is stated by the `ClassNamePrefix` lemmas below. |
| ClassNameProperties.PascalPath | src/fileCreator.ts:36-45 | A reference, one-pass conversion of a path to a constant name; its result has no `/` and no `_`. |
| ClassNameProperties.ClassNameIsPascalPath | src/fileCreator.ts:36-45 | The split, map and join of the source is the one-pass conversion, for every path. |
| ClassNameProperties.ClassNameCons | src/fileCreator.ts:36-45 | A leading segment becomes its own component, joined to the rest with `::`: one component per segment. |
| ClassNameProperties.ClassNameOne | src/fileCreator.ts:36-45 | A path with no `/` is one component. |
| ClassNameProperties.CamelizeFirstWord | src/fileCreator.ts:39-42 | A segment's words are each capitalized and concatenated, the first word first. |
| ClassNameProperties.CamelizeOne | src/fileCreator.ts:39-42 | A one-word segment is that word, capitalized. |
| ClassNameProperties.CamelizeTwoWords | src/fileCreator.ts:39-42 | `a_b` becomes `A` + `B`, each capitalized. |
| ClassNameProperties.ClassNameAlphabet | src/fileCreator.ts:36-45 | A class name never contains `/` or `_`. |
| ClassNameProperties.NormalizeEndsWith | src/fileCreator.ts:11 | For an ending without slashes or backslashes, the normalised path ends with it exactly when the path does. |
| ClassNameProperties.NormalizeInsert | src/fileCreator.ts:11-14 | Normalising and inserting the spec suffix commute. |
| ClassNameProperties.InferClassNameIgnoresSpecSuffix | src/fileCreator.ts:11-14 | A path and its `_spec` variant are given the same class name. |
| ClassNameProperties.NoPackMatch | src/fileCreator.ts:20 | A path without `packs/` is not matched by the pack pattern. |
| ClassNameProperties.StandardAtStart | src/fileCreator.ts:25-28 | A path starting with `app/`, `lib/` or `spec/` and a non-empty rest is matched by the standard pattern at the start. |
| ClassNameProperties.RemoveSpecSuffixKeeps | src/fileCreator.ts:14 | Removing the suffix keeps a path non-empty, free of line terminators and free of `packs/`. |
| ClassNameProperties.StandardClassName | src/fileCreator.ts:10-46 | For `d/X` with a top directory `d` and no `packs/`, the standard pattern is found at the start and the name is built from its capture of `X` without its suffixes. |
| ClassNameProperties.CategoryWordsDistinct | src/fileCreator.ts:25 | No category word starts with another, and none holds `/`, a backslash or a line terminator. |
| ClassNameProperties.FirstWordOf | src/fileCreator.ts:25 | A text starting with `c/` for a category word `c` is matched by `c`. |
| ClassNameProperties.CategoryDropped | src/fileCreator.ts:25 | After a top directory, a category word and its slash are dropped. |
| ClassNameProperties.CategoryClassName | src/fileCreator.ts:10-46 | `d/c/R` with a top directory and a category word is named after `R` alone. |
| ClassNameProperties.ClassNameAcrossTopDirs | src/fileCreator.ts:25 | `app/X`, `lib/X` and `spec/X` are named alike. |
| ClassNameProperties.WholePathWithoutPattern | src/fileCreator.ts:17-29 | When neither pattern can match, the name is built from the whole cleaned path. |
| ClassNameProperties.PackRelativeAtSplit | src/fileCreator.ts:20 | At `packs/<name>/<d>/` with a top directory `d`, the pack pattern captures the rest. |
| ClassNameProperties.PackClassName | src/fileCreator.ts:20-22 | For `packs/<name>/<d>/X` the pack pattern is found at the start, and the name is built from `X` without its suffixes, a category word in `X` kept. |
| ClassNameProperties.PackRelativeName | src/fileCreator.ts:20-22 | For `packs/<name>/<d>/C`, the pack pattern is found at the start and the relative path is `C`. |
| ClassNameProperties.PackCleanPath | src/fileCreator.ts:11-14 | Cleaning a pack path touches only the part after `packs/<name>/`. |
| ClassNameExamples.ModelExample | src/fileCreator.ts:6 | `app/models/<w>.rb` is named `<W>`: `app/models/user.rb` gives `User`. |
| ClassNameExamples.ServiceExample | src/fileCreator.ts:7 | `app/services/<s>.rb` is named after `s` in PascalCase. |
| ClassNameExamples.TwoWordSegment | src/fileCreator.ts:7 | `payment_processor` becomes `PaymentProcessor`. |
| ClassNameExamples.LibExample | src/fileCreator.ts:8 | `app/lib/<s1>/<s2>/<f>.rb` gives `S1::S2::F`: `app/lib/donor_sync/group_i/demographics.rb` gives `DonorSync::GroupI::Demographics`. |
| ClassNameExamples.LibRelative | src/fileCreator.ts:8 | Under `app/lib/`, the relative path is `s1/s2/f`. |
| ClassNameExamples.ThreeSegments | src/fileCreator.ts:36-45 | Three segments give three components joined with `::`. |
| ClassNameExamples.CategoryRuby | src/fileCreator.ts:25-32 | A Ruby file under a category directory is named after its path past the category, without `.rb`. |
| ClassNameExamples.PackModelExample | src/fileCreator.ts:20-22 | `packs/<name>/app/<c>/<w>.rb` is named `C::W`: the pack pattern keeps the category directory. |
| ClassNameExamples.PackRuby | src/fileCreator.ts:20-32 | A Ruby file under a pack's top directory is named after its path past that directory, without `.rb`. |
| ClassNameExamples.RubyFile | src/fileCreator.ts:32 | A stem not ending in `_spec` keeps `.rb` through suffix removal and loses it at the end. |
| ClassNamePrefix.PackFoundAt | src/fileCreator.ts:20-22 | With no `packs/` or top directory starting before index `k` and `packs/<name>/<d>/C` at `k`, the pack pattern is found at `k` and the relative path is `C`. |
| ClassNamePrefix.StandardFoundAt | src/fileCreator.ts:17-29 | With no `packs/` anywhere, nothing starting before `k` and `<d>/C` at `k`, the pack pattern is found nowhere, the standard one at `k`, and the relative path is what its group keeps of `C`. |
| ClassNamePrefix.StandardAtIndex | src/fileCreator.ts:25 | At an index holding `<d>/C`, the standard pattern keeps of `C` what it keeps at the start of a path. |
| ClassNamePrefix.NoStandardBefore | src/fileCreator.ts:25 | At an index where no `app/`, `lib/` or `spec/` starts, the standard pattern does not match. |
| ClassNamePrefix.PlainPrefixNoStart | src/fileCreator.ts:20-28 | No `packs/`, `app/`, `lib/` or `spec/` starts inside a prefix that ends with `/` and holds none of them, whatever follows it. |
| ClassNamePrefix.NoPacksBehind | src/fileCreator.ts:20 | Such a prefix adds no `packs/` to a path without one. |
| ClassNamePrefix.NormalizeBehind | src/fileCreator.ts:11 | A backslash-free prefix passes through normalisation unchanged. |
| ClassNamePrefix.CleanBehind | src/fileCreator.ts:11-14 | Behind such a prefix, cleaning a backslash-free path only removes its `_spec` suffix. |
| ClassNamePrefix.StandardClassNameBehind | src/fileCreator.ts:10-46 | `P<d>/X` behind a plain prefix `P`, such as an absolute workspace path: the standard pattern is found right after `P`, and the name is the one `d/X` gets. |
| ClassNamePrefix.PackClassNameBehind | src/fileCreator.ts:10-46 | `Ppacks/<name>/<d>/X` behind a plain prefix: the pack pattern is found right after `P`, and the name is the one `packs/<name>/<d>/X` gets (the camelized `X` without its suffixes, by `ClassNameProperties.PackClassName`). |
| ClassNamePrefix.AbsoluteModelExample | src/fileCreator.ts:6 | `<P>app/models/<w>.rb` behind a plain prefix is named `<W>`, as `app/models/<w>.rb` is. |
| ClassNamePrefix.LeftmostTopDirWins | src/fileCreator.ts:25-28 | `<Q>my_app/app/X`: the standard pattern is found at the `app/` ending `my_app/`, the leftmost match, so the name is that of `app/X` without suffixes, with an extra leading `App` component. |
| ClassNamePrefix.MyAppRelative | src/fileCreator.ts:25-28 | In the cleaned `<Q>my_app/app/C`, the standard pattern is found at index `|Q| + 3` and the relative path is `app/C`. |
| ClassNamePrefix.InnerAppKept | src/fileCreator.ts:25 | `app` is no category word: after the top directory, `app/C` is kept whole. |
| ClassNamePrefix.AppNameTail | src/fileCreator.ts:32-45 | `app/R` is named `App::` followed by the name of `R`. |
| ClassNamePrefix.StripRbBehind | src/fileCreator.ts:32 | Dropping `.rb` never reaches into a directory prefix. |
| Toggle.TogglePathFields | src/pathResolver.ts:249-275 | `isSpec` and `isPack` are the classifiers; the target is the implementation for a spec and the spec otherwise; a pack name is present exactly when `extractPackInfo` succeeds, and is then its name. |
| Toggle.ToggleOfPlain | src/pathResolver.ts:249-275 | A non-spec, non-pack file gets its spec path and no pack name. |
| Toggle.ToggleOfPlainSpec | src/pathResolver.ts:249-275 | A non-pack spec gets its implementation path and no pack name. |
| Toggle.ToggleOfPack | src/pathResolver.ts:249-272 | A pack implementation gets its spec path and its pack name. |
| Toggle.ToggleOfPackSpec | src/pathResolver.ts:249-272 | A pack spec gets its implementation path and its pack name. |
| Toggle.PlainToggleTwice | src/pathResolver.ts:249-275 | Where the resolvers round-trip, toggling twice returns to the file, now flagged as coming from a spec. |
| Toggle.ToggleAppTwice | src/test/pathResolver.test.ts:267-281 | `app/X` toggles to `spec/X_spec` and back to `app/X`. |
| Toggle.ToggleLibTwice | src/test/pathResolver.test.ts:267-281 | `lib/X` toggles to `spec/X_spec` and back to `lib/X`. |
| Toggle.TogglePackTwice | src/test/pathResolver.test.ts:283-297 | `<prefix>packs/<name>/app/X` toggles to its spec and back, both times with the pack name. |
| Toggle.PackImplementationToggle | src/pathResolver.ts:249-272 | The first toggle of the above. |
| Toggle.PackSpecToggle | src/pathResolver.ts:249-272 | The second toggle of the above. |
| Toggle.PlainImplementationSide | src/pathResolver.ts:7-28 | `d/X` with no spec suffix, no `spec` and no `packs` segment is neither a spec nor a pack file. |
| Toggle.PlainSpecSide | src/pathResolver.ts:7-28 | `spec/X_spec` is a spec and not a pack file. |
| Toggle.PackSpecSide | src/pathResolver.ts:7-48 | `<prefix>packs/<name>/spec/Y` is a spec, split into that name and `spec/Y`. |
| Toggle.PackSide | src/pathResolver.ts:24-48 | `<prefix>packs/<name>/d/X` is a normalised pack file, split into that name and `d/X`. |
| Toggle.PackSpecIsSpecFile | src/pathResolver.ts:7-19 | A normalised path with a `/spec/` after the pack is a spec. |
| SpecContent.SpecContentInjective | src/fileCreator.ts:51-61 | Two paths get the same template exactly when they get the same class name: the name is the template's only variable part. |
| SpecContent.SpecContentIgnoresSpecSuffix | src/fileCreator.ts:51-61 | A path and its `_spec` variant get the same template. |
| SpecContent.SpecNamedLikeImplementation | src/fileCreator.ts:10-29 | `d/X` under a top directory and the spec `spec/X_spec` are named alike. |
| SpecContent.AppSpecContent | src/fileCreator.ts:51-61 | For `app/X` on the usual layout, the spec the resolver points to gets the same template as the implementation. |

## Left out

- `createSpecFile` (src/fileCreator.ts:68-101): asynchronous workspace file system calls, a foreign API with no visible contract.
- src/extension.ts: command registration, file existence checks, opening editors, notifications and settings; all of it is editor I/O.
- FileCreator.ToUpper: maps only the ASCII letters `a` to `z`; JavaScript's full Unicode upper-casing is not modelled.
- Strings are sequences of `char`. JavaScript strings are UTF-16 code units, and surrogate pairs are not distinguished here.
- The round-trip and toggle lemmas hold only on the domains their requirements name: an `app/` file under a Rails app directory, a `lib/` file outside one, and a pack file with a single `packs` directory. The source's round trip fails elsewhere; `RoundTrips.AppOutsideAllowlist` and `RoundTrips.LibUnderAppDirectory` show two such cases.
- The pack lemmas `PackProperties.PackForward` and `PackProperties.PackBackward` assume a single `packs` directory. With a second `packs/` directory that does not start a pack split, the prefix regex (src/pathResolver.ts:91) and `extractPackInfo` pick different `packs/`, and no lemma states the result.
- FileCreator.RelativeName: on a path behind a directory prefix, the lemmas state the value for a prefix holding no `packs/`, `app/`, `lib/` or `spec/`, and for the `my_app/` case where a match starts inside the prefix. For other prefixes only the general contract holds: the result is an ending of the cleaned path.
- The doc-comment examples and the test cases are stated for every word or segment of the example's shape, with the literal paths as instances. The individual literal test cases are not restated one by one.
- The node:test harness in src/test/pathResolver.test.ts is not modelled, only the behaviour its cases check.
