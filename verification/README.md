# A verified model of selected Kubernetes components

This project is a Dafny model of several small, self-contained parts of the
Kubernetes repository, together with proofs of what those parts promise.

- **Watch cache** (`watch_cache.dfy`). The API server's cacher keeps a keyed
  store of objects and a fixed-capacity ring of the change events that
  produced it. The model covers Add, Update, Delete, Get, List and Replace,
  and the "events since a resource version" query a watcher starts from,
  with its "too old" and not-initialized errors. It also covers how
  `WaitUntilFreshAndList` picks a secondary index (a label index `l:<key>`
  or a field index `f:<path>`) and returns that index's bucket in key
  order. The cache is a
  `class` whose ring is an `array` with start and end indices. The tests of
  `watch_cache_test.go` are replayed against it as lemmas and methods in
  `WatchCacheScenarios`.
- **LIST routing** (`list_routing.dfy`). Decides whether a LIST is served at
  its exact resource version or at the latest one. This includes the
  `strconv.ParseInt`-style parse of the resource version.
- **Fallback delegation** (`fallback.dfy`). Decides whether the cacher
  serves a LIST or delegates it to storage, as the test table of
  `delegator_fallback_test.go` pins it down.
- **Continue tokens** (`continue_token.dfy`). Encodes and decodes the
  resume point of a paginated LIST. Decoding covers its four error values
  and the check that the start key cannot climb above the key prefix.
- **Diff** (`diff.dfy`, `diff_check.dfy`). `diff.Diff` prints a
  pseudo-Go rendering of two values in which removed lines carry `-` and
  added lines carry `+`. `diff.dfy` models it over a value datatype. The
  datatype covers nil, scalars, strings, pointers, interfaces, slices,
  arrays, maps and structs. `diff_check.dfy` models the checks its test
  makes on that output.
- **Dependency verifier** (`dependency_verifier.dfy`). Covers the helpers
  of the tool that checks the repository's unwanted dependencies:
  - parsing `go mod graph` output into a module map;
  - module lookup in a list;
  - the sorted set difference of two lists;
  - finding the module that owns a package;
  - the direct-importer test;
  - stripping `replace` directives from a go.mod file;
  - the depth-first walk (`doVisit`) over the module graph. The walk is a
    class with a `visited` set.
- **Feature sorting** (`go_ast.dfy`, `name_sort.dfy`, `sort_features.dfy`,
  `sorted_features.dfy`). Covers the tool that rewrites blocks of feature
  declarations into name order, keeping each declaration with its comments,
  and the linter that reports a block that is not in name order. Both share
  a stable in-place sort by name on an array.
- **Import patcher** (`patch_imports.dfy`). Covers the script that inserts
  one compatibility import line into a Python file. The line goes right
  after the last `from __future__` line, or at the top when the file has
  none.

`wrappers.dfy` holds Option and Result. `strs.dfy` holds the string helpers
and the string order the Go code sorts by. The model compares code
points, which agrees with Go's byte order on valid UTF-8.

Two behaviours of the code are easy to miss:

- `WaitUntilFreshAndList`, given a label selector that pins an indexed
  label and a field selector that pins a node name, returns the label
  index's bucket alone. It does not filter that bucket by the field
  selector, so both pods labelled `value1` come back
  (`watch_cache_test.go:483-503`). Filtering by the whole predicate is
  left to its caller.
- The doc comment of `diff.Diff` says it returns "" exactly when the values
  are equal. The code also returns "" for a nil slice or map against an
  empty one (`diff.go:105-111`), and those are not equal.
  `Diff.DiffEmptyIff` states the behaviour as written.

## Model

| member | source | states |
|---|---|---|
| Strs.IndexOf | cmd/dependencyverifier/dependencyverifier.go:198 | the first occurrence of the character, or none exactly when it does not occur |
| Strs.LastIndexOf | cmd/dependencyverifier/dependencyverifier.go:445 | strings.LastIndex: the last occurrence of the character, or none exactly when it does not occur |
| Strs.Split | cmd/dependencyverifier/dependencyverifier.go:126-130 | strings.Split gives at least one piece and no piece holds the separator |
| Strs.JoinSplit | cmd/dependencyverifier/dependencyverifier.go:331-352 | splitting and re-joining on the same separator gives the text back |
| Strs.SplitJoin | cmd/dependencyverifier/dependencyverifier.go:126-130 | joining pieces free of the separator and splitting again gives the same pieces |
| Strs.IndexOfFirst | cmd/dependencyverifier/dependencyverifier.go:198 | in a text whose first piece is free of the separator, the first separator follows that piece |
| Strs.TrimSpace | cmd/dependencyverifier/dependencyverifier.go:335 | strings.TrimSpace returns the input less a prefix and a suffix that are all white space, with no white space left at either end; it is empty exactly when the input is all white space |
| Strs.LessIrreflexive | cmd/sortfeatures/main.go:225 | no string is less than itself |
| Strs.LessTransitive | cmd/sortfeatures/main.go:225 | Go's string order is transitive |
| Strs.LessTotal | cmd/sortfeatures/main.go:225 | any two different strings are ordered one way or the other |
| Strs.LessAsymmetric | cmd/sortfeatures/main.go:225 | if a < b then not b < a |
| Strs.LessEqTransitive | cmd/sortfeatures/main.go:225 | <= is transitive |
| Strs.LessAntisymmetric | cmd/sortfeatures/main.go:225 | a <= b and b <= a only for equal strings |
| Strs.InsertSortedKeepsOrder | cmd/dependencyverifier/dependencyverifier.go:172-173 | inserting a new element into a strictly sorted list keeps it strictly sorted and adds exactly that element |
| Strs.SortedKeys | cmd/dependencyverifier/dependencyverifier.go:164-173 | the keys of a map, ranged over in any order and sorted by sort.Strings, come out strictly sorted and exactly those keys |
| Strs.InsertSortedElements | cmd/dependencyverifier/dependencyverifier.go:172-173 | inserting a new element into a strictly sorted list adds exactly that element |
| Strs.SortedUnique | cmd/dependencyverifier/dependencyverifier.go:172-173 | two strictly sorted lists with the same elements are the same list, so the sorted output does not depend on map order |
| Strs.SortedExists | cmd/dependencyverifier/dependencyverifier.go:172-173 | every finite set of strings has a strictly sorted listing |
| Strs.SortedOf | cmd/dependencyverifier/dependencyverifier.go:172-173 | the sorted listing of a set is strictly sorted and holds exactly the set |
| Fallback.GetList | staging/src/k8s.io/apiserver/pkg/storage/cacher/delegator_fallback_test.go:140-150 | the cacher is always called first; the storage is called exactly when the cacher's error is ResourceExpired and the snapshot feature is on, and then the storage's error is returned; otherwise the cacher's error, nil included, is returned unchanged |
| Fallback.FeatureOffNeverCallsStorage | staging/src/k8s.io/apiserver/pkg/storage/cacher/delegator_fallback_test.go:53-76 | with the feature off only the cacher is called and its error is returned, whatever it answered |
| Fallback.FallbackTableRows | staging/src/k8s.io/apiserver/pkg/storage/cacher/delegator_fallback_test.go:37-76 | the test's rows: feature on with ResourceExpired calls the storage; feature off with a nil cacher answer calls only the cacher and returns nil |
| ListRouting.ClampedResourceVersion | staging/src/k8s.io/apiserver/pkg/storage/cacher/list_test.go:171-176 | the version handed to the list function is positive exactly when strconv.ParseInt of the string is, equals the parse then, and never exceeds the int64 maximum |
| ListRouting.ListFunc | staging/src/k8s.io/apiserver/pkg/storage/cacher/list_test.go:90-103 | the exact path is taken if and only if limit > 0, the version string is non-empty and not "0", the feature is on and the version is positive; it returns ResourceExpired and no result, the latest path returns "result" and no error |
| ListRouting.PositiveParseIsNonZeroString | staging/src/k8s.io/apiserver/pkg/storage/cacher/list_test.go:92-96 | a string that parses to a positive value is neither empty nor "0" |
| ListRouting.ParseZero | staging/src/k8s.io/apiserver/pkg/storage/cacher/list_test.go:94 | "0" parses to 0 |
| ListRouting.ExactPathOfParsedVersion | staging/src/k8s.io/apiserver/pkg/storage/cacher/list_test.go:92-96 | with the clamped parse as version, the exact path is taken exactly when the request is paginated, the feature is on and the parse is positive |
| ListRouting.NegativeStringParsesNonPositive | staging/src/k8s.io/apiserver/pkg/storage/cacher/list_test.go:172-176 | a string with a leading minus never parses to a positive value, so it is clamped to 0 |
| ListRouting.NegativeVersionTakesLatestPath | staging/src/k8s.io/apiserver/pkg/storage/cacher/list_test.go:179-209 | a negative version takes the latest path and returns "result", whatever the feature, limit and continue token |
| ListRouting.EmptyVersionTakesLatestPath | staging/src/k8s.io/apiserver/pkg/storage/cacher/list_test.go:43-56 | an empty version takes the latest path whatever the feature and limit |
| ListRouting.RoutingTableRows | staging/src/k8s.io/apiserver/pkg/storage/cacher/list_test.go:43-77 | the five rows of the routing table, called at version 10: only rv "10" with the feature on takes the exact path, with ResourceExpired and no result |
| ListRouting.NegativeTableRows | staging/src/k8s.io/apiserver/pkg/storage/cacher/list_test.go:141-160 | "-1", "-10" and "-5" clamp to 0 and take the latest path |
| ListRouting.ParseTen | staging/src/k8s.io/apiserver/pkg/storage/cacher/list_test.go:58-63 | "10" parses and clamps to 10 |
| ContinueToken.Resolve | staging/src/k8s.io/apiserver/pkg/storage/continue_test.go:82-101 | lexical resolution of the segments after the root keeps only normal segments (not empty, not ".", not "..") |
| ContinueToken.CleanRooted | staging/src/k8s.io/apiserver/pkg/storage/continue_test.go:82-101 | path.Clean of a rooted path is again rooted |
| ContinueToken.ResolveLength | staging/src/k8s.io/apiserver/pkg/storage/continue_test.go:82-101 | resolving never adds segments, and keeps the full count only when every input segment was normal |
| ContinueToken.CleanFixedPoint | staging/src/k8s.io/apiserver/pkg/storage/continue_test.go:82-101 | a rooted path that path.Clean leaves unchanged is "/" or a run of normal segments only |
| ContinueToken.Rooted | staging/src/k8s.io/apiserver/pkg/storage/continue_test.go:56-61 | the start key made absolute always starts with "/" |
| ContinueToken.DecodeContinue | staging/src/k8s.io/apiserver/pkg/storage/continue_test.go:38-118 | each of the four errors occurs exactly under its own condition, checked in order: version other than "meta.k8s.io/v1", resource version 0, empty start key, start key not in clean form; an error carries no key and version 0; success returns the token's non-zero version and the prefix followed by the rooted key without its leading "/" |
| ContinueToken.DecodedKeyStaysUnderPrefix | staging/src/k8s.io/apiserver/pkg/storage/continue_test.go:82-101 | a decoded key always starts with the prefix, and what follows is empty or normal segments only, so it cannot climb above the prefix |
| ContinueToken.AbnormalSegmentRejected | staging/src/k8s.io/apiserver/pkg/storage/continue_test.go:82-101 | a key with any empty, "." or ".." segment is rejected with ErrGenericInvalidKey |
| ContinueToken.DecodeValidRows | staging/src/k8s.io/apiserver/pkg/storage/continue_test.go:50-61 | "key" under "/test/" decodes to "/test/key" and "/" to "/test/", both at version 1 |
| ContinueToken.DecodeFieldErrorRows | staging/src/k8s.io/apiserver/pkg/storage/continue_test.go:62-81 | the empty and "v1" versions give ErrUnrecognizedEncodedVersion, version 0 gives ErrInvalidStartRV, an empty key gives ErrEmptyStartKey |
| ContinueToken.DecodeTraversalRows | staging/src/k8s.io/apiserver/pkg/storage/continue_test.go:82-101 | "../key", "./key", "./../key" and "key/../.." are all rejected with ErrGenericInvalidKey |
| ContinueToken.ParentRow | staging/src/k8s.io/apiserver/pkg/storage/continue_test.go:82-86 | "../key" is rejected with ErrGenericInvalidKey |
| ContinueToken.LocalRow | staging/src/k8s.io/apiserver/pkg/storage/continue_test.go:87-91 | "./key" is rejected with ErrGenericInvalidKey |
| ContinueToken.LocalParentRow | staging/src/k8s.io/apiserver/pkg/storage/continue_test.go:92-96 | "./../key" is rejected with ErrGenericInvalidKey |
| ContinueToken.ParentAfterKeyRow | staging/src/k8s.io/apiserver/pkg/storage/continue_test.go:97-101 | "key/../.." is rejected with ErrGenericInvalidKey |
| ContinueToken.SecondSegmentParent | staging/src/k8s.io/apiserver/pkg/storage/continue_test.go:97-101 | any relative key whose second segment is ".." is rejected |
| ContinueToken.TraversalRow | staging/src/k8s.io/apiserver/pkg/storage/continue_test.go:82-96 | any relative key whose first segment is "." or ".." is rejected |
| ContinueToken.TrimPrefix | staging/src/k8s.io/apiserver/pkg/storage/continue_test.go:163 | strings.TrimPrefix: with the prefix present the input is prefix + result, otherwise the input comes back unchanged |
| ContinueToken.EncodeContinue | staging/src/k8s.io/apiserver/pkg/storage/continue_test.go:163-166 | encoding succeeds exactly when the key starts with a non-empty prefix; the token then carries "meta.k8s.io/v1", the given version and the key relative to the prefix |
| ContinueToken.EncodeDecodeRoundTrip | staging/src/k8s.io/apiserver/pkg/storage/continue_test.go:50-55 | decoding an encoded token gives back the original key and version when the version is non-zero and the relative key is a run of normal segments |
| ContinueToken.NormalKeyIsClean | staging/src/k8s.io/apiserver/pkg/storage/continue_test.go:50-55 | a relative key of normal segments is unchanged by rooting and path.Clean |
| ContinueToken.ResolveNormal | staging/src/k8s.io/apiserver/pkg/storage/continue_test.go:50-55 | resolving normal segments keeps all of them in order |
| ContinueToken.PrepareContinueToken | staging/src/k8s.io/apiserver/pkg/storage/continue_test.go:120-176 | with no more items nothing is returned; otherwise a token for the last key followed by NUL, an error exactly when that key lies outside a non-empty prefix, and for an empty predicate only a remaining count of items beyond the limit, clamped at 0 |
| ContinueToken.LargeLimitRows | staging/src/k8s.io/apiserver/pkg/storage/continue_test.go:137-158 | with limit 50000 the test's two rows give a token and 0 remaining for 1000 items, 10000 remaining for 60000 items |
| PatchImports.StripRightPrefix | test/images/node-perf/tf-wide-deep/patch_imports.py:22 | str.rstrip keeps a prefix of the line, ends on a non-space character, and keeps a line that starts with a non-space character non-empty |
| PatchImports.StripLeftSuffix | test/images/node-perf/tf-wide-deep/patch_imports.py:22 | str.lstrip keeps a suffix of the line that does not start with white space |
| PatchImports.StripTrims | test/images/node-perf/tf-wide-deep/patch_imports.py:22 | str.strip leaves no white space at either end, keeps the first non-space character, and is the identity on a line with none at either end |
| PatchImports.LastFutureLine | test/images/node-perf/tf-wide-deep/patch_imports.py:19-23 | the index of the last line that is a future import after stripping, or -1; the line at a non-negative result is a future import |
| PatchImports.InsertPosition | test/images/node-perf/tf-wide-deep/patch_imports.py:25-31 | the insertion index lies within the file and, when not 0, follows a future-import line |
| PatchImports.LastFutureLineIsLast | test/images/node-perf/tf-wide-deep/patch_imports.py:19-23 | no line after the found index is a future import |
| PatchImports.InsertPositionZero | test/images/node-perf/tf-wide-deep/patch_imports.py:25-31 | the import goes to line 0 exactly when no line is a future import |
| PatchImports.Patched | test/images/node-perf/tf-wide-deep/patch_imports.py:25-31 | the patched file is one line longer and holds the import line at the insertion index |
| PatchImports.FindLastFutureLine | test/images/node-perf/tf-wide-deep/patch_imports.py:20-23 | the scan loop returns the index of the last future import, or -1 |
| PatchImports.PatchFile | test/images/node-perf/tf-wide-deep/patch_imports.py:14-34 | patch_file's lines after the scan and the insertion are the patched file |
| PatchImports.LastFutureLineStep | test/images/node-perf/tf-wide-deep/patch_imports.py:21-23 | scanning one more line moves the answer to that line exactly when it is a future import |
| PatchImports.PatchKeepsLines | test/images/node-perf/tf-wide-deep/patch_imports.py:28 | the lines before and after the insertion are the original lines, in order |
| PatchImports.CompatIsNotFuture | test/images/node-perf/tf-wide-deep/patch_imports.py:11 | the inserted import line is not itself a future import |
| PatchImports.LetterStartIsNotFuture | test/images/node-perf/tf-wide-deep/patch_imports.py:22 | a line starting with a character other than white space and 'f' is never a future import |
| PatchImports.NoFutureAfterInsert | test/images/node-perf/tf-wide-deep/patch_imports.py:25-31 | no line after the inserted import is a future import, so the import never precedes one |
| PatchImports.LastFutureLineUnique | test/images/node-perf/tf-wide-deep/patch_imports.py:19-23 | a future-import index with no future import after it is the one the scan finds |
| PatchImports.PatchedFutureLines | test/images/node-perf/tf-wide-deep/patch_imports.py:25-31 | patching keeps the index of the last future import, so a second pass inserts at the same place |
| PatchImports.FromInsertNotFuture | test/images/node-perf/tf-wide-deep/patch_imports.py:25-31 | neither the inserted line nor any line after it is a future import |
| PatchImports.PatchTwice | test/images/node-perf/tf-wide-deep/patch_imports.py:38-41 | patching is not idempotent: a second pass inserts a second copy of the import at the same index |
| GoAst.AdjacentComments | cmd/sortfeatures/main.go:186-193 | every returned text belongs to a comment group that ends right before the spec's position, and the texts of every such group are returned, in file order: each group's texts follow those of the such groups before it |
| GoAst.FeatureComments | cmd/sortfeatures/main.go:180-194 | a spec with a doc comment gets exactly that comment's lines; otherwise it gets the texts of every group ending right before the spec, in file order, and nothing else |
| NameSort.SortByName | cmd/sortfeatures/main.go:219-229 | the sorted copy is a permutation of the features and its names are in non-decreasing Go string order |
| NameSort.SinkLast | cmd/sortfeatures/main.go:224-226 | one insertion step leaves the first i + 1 names ordered, permutes the array and leaves the rest untouched |
| NameSort.AdjacentOrderedNames | cmd/sortfeatures/main.go:224-226 | a sequence whose neighbouring names are ordered has its whole name sequence ordered |
| NameSort.SinkStep | cmd/sortfeatures/main.go:224-226 | swapping the inserted name below a greater neighbour keeps both ordered runs and moves the insertion point one place down |
| NameSort.SinkDone | cmd/sortfeatures/main.go:224-226 | once the inserted name is not less than its left neighbour, the names up to it are ordered |
| NameSort.AdjacentChain | cmd/sortfeatures/main.go:224-226 | with neighbouring names ordered, every earlier name is at most every later one |
| NameSort.HasOrderChanged | cmd/sortfeatures/main.go:231-244 | the order changed exactly when the two name sequences differ, a difference in length included |
| NameSort.NamesConcat | cmd/sortfeatures/main.go:237-241 | the names of a concatenation are the concatenation of the names |
| NameSort.PermutedNames | cmd/sortfeatures/main.go:220-228 | permuting the features permutes their names |
| NameSort.OrderedPermutationsEqual | cmd/sortfeatures/main.go:224-226 | two ordered name sequences holding the same names are equal |
| NameSort.OrderedHeadsEqual | cmd/sortfeatures/main.go:224-226 | two ordered, non-empty permutations of the same names start with the same name |
| NameSort.SortedNamesUnique | cmd/sortfeatures/main.go:224-226 | any two sorted copies of the same features have the same name sequence, whatever order the unstable sort leaves equal names in |
| NameSort.OrderUnchangedIffOrdered | cmd/sortfeatures/main.go:116-120 | hasOrderChanged reports no change exactly when the names were already in non-decreasing order |
| SortFeatures.TokenToString | cmd/sortfeatures/main.go:145-155 | the keyword text is never empty |
| SortFeatures.TokenToStringIsTokenString | cmd/sortfeatures/main.go:145-155 | the switch agrees with token.String on every declaration keyword, giving "var" and "const" for the two block keywords |
| SortFeatures.LineStartOf | cmd/sortfeatures/main.go:200-204 | the backward scan never passes its starting offset |
| SortFeatures.LineStartOfIsLineStart | cmd/sortfeatures/main.go:200-204 | the scan stops at 0 or right after a newline (or a tab, for extraction) and passes no such character on its way |
| SortFeatures.LineStartOfPrefix | cmd/sortfeatures/main.go:255-259 | the scan reads nothing at or after its starting offset, so text after it does not change the answer |
| SortFeatures.ScanLineStart | cmd/sortfeatures/main.go:200-204 | the scan loops of extractFeatures and updateFile compute the line start |
| SortFeatures.Extracted | cmd/sortfeatures/main.go:164-217 | extraction yields at most one feature per spec |
| SortFeatures.ExtractFeatures | cmd/sortfeatures/main.go:164-217 | one feature per named value spec, in spec order, with its first name, its comments and its declaration line |
| SortFeatures.SpecLineBounds | cmd/sortfeatures/main.go:196-207 | each extracted line starts at the start of the file or right after a newline or tab, and ends where its spec ends |
| SortFeatures.RewriteKeepsOutside | cmd/sortfeatures/main.go:261-293 | the rewrite keeps the text before the declaration's line and the text after the block verbatim |
| SortFeatures.BlockTextShape | cmd/sortfeatures/main.go:264-290 | the new block opens with the keyword and " (" and closes with a newline and ")" |
| SortFeatures.FeaturesTextSplit | cmd/sortfeatures/main.go:268-287 | the block text of n features is that of the first n - 1 followed by the last feature's own text |
| SortFeatures.UpdateFile | cmd/sortfeatures/main.go:246-296 | updateFile's buffer holds the text before the declaration's line, the new block and the text after the block |
| SortFeatures.AppendFeatures | cmd/sortfeatures/main.go:268-287 | the loop over the sorted features appends the text of every feature in order |
| SortFeatures.AppendFeature | cmd/sortfeatures/main.go:270-286 | one feature is a newline, its comments, a tab and its line, and a newline unless it is the last |
| SortFeatures.AppendComments | cmd/sortfeatures/main.go:273-277 | each comment is written as a tab, the comment and a newline |
| SortFeatures.PlacedBounds | cmd/sortfeatures/main.go:96-130 | the rewrites after the first stay placed after its end, and its line start lies at or before its declaration |
| SortFeatures.ProcessFile | cmd/sortfeatures/main.go:70-143 | processFile with the correction of the first Findings row (the rewrites applied from the last block to the first, by ApplyFromLast): the file changes exactly when some block needs a rewrite (order changed or forced); an unchanged file keeps its content; every such block is rewritten with its features sorted, at the offsets of the original content |
| SortFeatures.CollectRewrites | cmd/sortfeatures/main.go:96-130 | the loop collects, in file order, a sorted rewrite for exactly the var/const blocks of more than one spec whose order changed or whose rewrite is forced |
| SortFeatures.CoversExtended | cmd/sortfeatures/main.go:96-130 | appending the rewrite of the current declaration keeps every earlier declaration that needs one covered |
| SortFeatures.IndicesPlaced | cmd/sortfeatures/main.go:96-130 | rewrites of blocks taken in file order lie in order, none overlapping the line of the next |
| SortFeatures.PlanBlock | cmd/sortfeatures/main.go:98-129 | a declaration is kept for rewriting exactly when it is a var or const block of more than one spec whose order changed, or the rewrite is forced; its features are then sorted by name |
| SortFeatures.PlacedFrom | cmd/sortfeatures/main.go:96-130 | the rewrites from any index on stay placed after the end of the one before |
| SortFeatures.SplicedStep | cmd/sortfeatures/main.go:96-130 | the intended result rewrites one block at a time, keeping the text between blocks |
| SortFeatures.SpliceOne | cmd/sortfeatures/main.go:246-296 | rewriting a block whose text up to its end is still the original keeps the text before it and replaces only the block |
| SortFeatures.ApplyFromLast | cmd/sortfeatures/main.go:96-130 | applying the rewrites from the last block to the first yields the intended result: every block rewritten at the original offsets |
| SortFeatures.SingleRewriteAgrees | cmd/sortfeatures/main.go:116-129 | with a single block to rewrite, the code as written gives the intended result |
| SortFeatures.StaleOffsetsIntended | cmd/sortfeatures/main.go:247-296 | on two unsorted two-feature blocks the intended output holds each block sorted, with its closing ")" |
| SortFeatures.StaleOffsetsAsWritten | cmd/sortfeatures/main.go:116-129 | on the same input the code as written loses the first block's closing ")" and newline, and puts a stray ")" after the second block |
| SortFeatures.SplicedTwo | cmd/sortfeatures/main.go:96-130 | the intended result for two blocks is the text around and between them with the two new blocks |
| SortFeatures.AppliedTwo | cmd/sortfeatures/main.go:116-129 | as written, the second rewrite scans and slices the first rewrite's output with the original offsets |
| SortFeatures.TwoPlainFeatures | cmd/sortfeatures/main.go:268-290 | two features without comments are laid out with a blank line between their lines |
| SortedFeatures.TargetFiles | hack/tools/golangci-lint/sortedfeatures/sortedfeatures.go:79-87 | the configured files when any are given, otherwise the seven default files; never empty |
| SortedFeatures.TrimTrailingSlashes | hack/tools/golangci-lint/sortedfeatures/sortedfeatures.go:94 | a prefix of the path that does not end in "/", with only slashes removed |
| SortedFeatures.Base | hack/tools/golangci-lint/sortedfeatures/sortedfeatures.go:94 | filepath.Base is never empty and, unless it is "/", holds no separator |
| SortedFeatures.BaseIsSuffix | hack/tools/golangci-lint/sortedfeatures/sortedfeatures.go:94 | a non-empty path without a trailing slash ends with its base name |
| SortedFeatures.HasSuffixTransitive | hack/tools/golangci-lint/sortedfeatures/sortedfeatures.go:94 | a suffix of a suffix is a suffix |
| SortedFeatures.IsTargetFile | hack/tools/golangci-lint/sortedfeatures/sortedfeatures.go:93-98 | the file is a target exactly when its name ends with some target path or with that target's base name |
| SortedFeatures.MatchesAny | hack/tools/golangci-lint/sortedfeatures/sortedfeatures.go:92-97 | the scan over the targets answers true exactly when some target matches the file name |
| SortedFeatures.BaseOfPath | hack/tools/golangci-lint/sortedfeatures/sortedfeatures.go:93 | the base name of a directory joined to a plain name is that name |
| SortedFeatures.TargetMatchIsBaseMatch | hack/tools/golangci-lint/sortedfeatures/sortedfeatures.go:93-98 | for targets that are non-empty and do not end in "/", the full-path test adds nothing to the base-name test |
| SortedFeatures.DefaultTargetsMatch | hack/tools/golangci-lint/sortedfeatures/sortedfeatures.go:34-42 | the first default target matches both its full path and a bare "kube_features.go" |
| SortedFeatures.Extracted | hack/tools/golangci-lint/sortedfeatures/sortedfeatures.go:150-189 | extraction yields at most one feature per spec |
| SortedFeatures.ExtractFeatures | hack/tools/golangci-lint/sortedfeatures/sortedfeatures.go:150-189 | extractFeatures returns the features of the named value specs, in spec order |
| SortedFeatures.ExtractedFromNamedSpecs | hack/tools/golangci-lint/sortedfeatures/sortedfeatures.go:154-185 | every feature carries the first name of a named value spec and, when the spec has a doc comment, exactly its lines |
| SortedFeatures.ExtractedAllNamed | hack/tools/golangci-lint/sortedfeatures/sortedfeatures.go:154-185 | a block of named value specs yields exactly one feature per spec, in order, each with its spec's name |
| SortedFeatures.ReportsIn | hack/tools/golangci-lint/sortedfeatures/sortedfeatures.go:105-139 | at most one report per declaration |
| SortedFeatures.CheckFile | hack/tools/golangci-lint/sortedfeatures/sortedfeatures.go:105-139 | the declaration loop reports, in order, exactly the var/const blocks of more than one spec and more than one feature whose order changed |
| SortedFeatures.Run | hack/tools/golangci-lint/sortedfeatures/sortedfeatures.go:68-142 | nothing for an empty pass or when the first file is not a target; otherwise the out-of-order blocks of every file, file by file |
| SortedFeatures.OrderedBlocksNotReported | hack/tools/golangci-lint/sortedfeatures/sortedfeatures.go:124-138 | a block whose names are already ordered, or that has at most one feature, is never reported |
| SortedFeatures.ReportedHasInversion | hack/tools/golangci-lint/sortedfeatures/sortedfeatures.go:104-138 | a reported block is a var or const block of at least two specs in which some name comes after a greater one |
| DependencyVerifier.ParseModule | cmd/dependencyverifier/dependencyverifier.go:194-200 | the name never holds "@"; text without "@" is a main module with no version; otherwise the text is the name, "@" and the version, split at the first "@" |
| DependencyVerifier.ParseThenString | cmd/dependencyverifier/dependencyverifier.go:187-200 | printing a parsed module gives the text back unless the text ends in its first "@" |
| DependencyVerifier.StringThenParse | cmd/dependencyverifier/dependencyverifier.go:187-200 | parsing a printed module gives the module back when its name holds no "@" |
| DependencyVerifier.TrailingAtDropped | cmd/dependencyverifier/dependencyverifier.go:187-200 | "name@" parses to a module without version, which prints as "name": the round trip loses the "@" |
| DependencyVerifier.ModuleInSlice | cmd/dependencyverifier/dependencyverifier.go:107-117 | true exactly when the list holds the identical module or, when versions do not matter, a module of the same name |
| DependencyVerifier.ListedByName | cmd/dependencyverifier/dependencyverifier.go:107-117 | without version matching, a module is found exactly when its name is among the list's names |
| DependencyVerifier.ConvertToMap | cmd/dependencyverifier/dependencyverifier.go:119-148 | the main-module list and the edge map are those built line by line from the graph text, skipping empty lines and lines without exactly two fields |
| DependencyVerifier.ConvertedEdges | cmd/dependencyverifier/dependencyverifier.go:126-146 | a module's edges are the targets of its edge lines in input order, and a module is a key exactly when some edge line leaves it |
| DependencyVerifier.MainsDistinct | cmd/dependencyverifier/dependencyverifier.go:134-139 | no main module is listed twice |
| DependencyVerifier.MainsAreSources | cmd/dependencyverifier/dependencyverifier.go:134-139 | every listed main module has an empty or v0.0.0 version and an edge line leaving it |
| DependencyVerifier.SourcesAreMains | cmd/dependencyverifier/dependencyverifier.go:134-139 | every source of an edge line with an empty or v0.0.0 version is listed as a main module |
| DependencyVerifier.MainsOnlyGrow | cmd/dependencyverifier/dependencyverifier.go:134-139 | the main modules of a prefix of the lines are a prefix of the final list: a listed module keeps its place |
| DependencyVerifier.AddedStep | cmd/dependencyverifier/dependencyverifier.go:157-163 | one more element of b goes into b - a exactly when it is not in a or occurred earlier in b |
| DependencyVerifier.Difference | cmd/dependencyverifier/dependencyverifier.go:150-175 | both lists are strictly sorted; the first holds exactly a - b; the second holds, as written, the elements of b not in a plus those repeated in b |
| DependencyVerifier.AddedWithoutRepeats | cmd/dependencyverifier/dependencyverifier.go:157-163 | when b repeats no element, the second list is exactly b - a |
| DependencyVerifier.SelfDifferenceAsWritten | cmd/dependencyverifier/dependencyverifier.go:150-175 | a list without repeats differs from itself in nothing |
| DependencyVerifier.RepeatedElementReported | cmd/dependencyverifier/dependencyverifier.go:157-163 | as written, ["x"] against ["x", "x"] reports "x" as only in b, although b - a is empty |
| DependencyVerifier.DifferenceCorrected | cmd/dependencyverifier/dependencyverifier.go:150-175 | both lists strictly sorted, holding exactly a - b and b - a; lists with equal elements give two empty lists |
| Strs.ElementsEmpty | cmd/dependencyverifier/dependencyverifier.go:150-175 | a list has no elements exactly when it is empty |
| DependencyVerifier.FindModuleForPackage | cmd/dependencyverifier/dependencyverifier.go:436-452 | the longest key that is the package path or ends at one of its "/" boundaries; "" when no key does |
| DependencyVerifier.NoSeparatorPrefix | cmd/dependencyverifier/dependencyverifier.go:445-448 | a path without "/" has only itself as a candidate owner |
| DependencyVerifier.PathPrefixOfPrefix | cmd/dependencyverifier/dependencyverifier.go:441-450 | a shorter candidate owner of a path is also a candidate owner of any longer candidate |
| DependencyVerifier.PathPrefixCut | cmd/dependencyverifier/dependencyverifier.go:445-449 | cutting a candidate owner at one of its own "/" separators gives another candidate |
| DependencyVerifier.IsDirectImporter | cmd/dependencyverifier/dependencyverifier.go:454-464 | true exactly when the module has an import entry and that entry marks the unwanted module true; a module missing from the map imports nothing |
| DependencyVerifier.StripReplaceDirectives | cmd/dependencyverifier/dependencyverifier.go:330-352 | the go.mod text rejoined from the lines the scan keeps, outside replace blocks and single replace lines |
| DependencyVerifier.StrippedKeepsOrder | cmd/dependencyverifier/dependencyverifier.go:334-350 | the kept lines are lines of the file in their order, and none of them opens a replace block or is a replace directive |
| DependencyVerifier.StrippedPlainLines | cmd/dependencyverifier/dependencyverifier.go:334-350 | a file without replace directives keeps all its lines |
| DependencyVerifier.NoReplaceUnchanged | cmd/dependencyverifier/dependencyverifier.go:330-352 | without replace directives the go.mod text is written back unchanged |
| DependencyVerifier.ReplaceBlockDropped | cmd/dependencyverifier/dependencyverifier.go:336-345 | a replace block is dropped through its closing ")" and the lines after it are handled afresh |
| DependencyVerifier.InsideBlock | cmd/dependencyverifier/dependencyverifier.go:340-345 | inside a replace block every line is dropped up to and including the first ")" |
| DependencyVerifier.Universe | cmd/dependencyverifier/dependencyverifier.go:792-794 | the names reachable from the main module through the graph and the effective versions form a closed set holding the main module |
| DependencyVerifier.NamesOfAppend | cmd/dependencyverifier/dependencyverifier.go:798 | appending a module to the path adds exactly its name |
| DependencyVerifier.Traversal.constructor | cmd/dependencyverifier/dependencyverifier.go:792-794 | the walk starts with no module visited and no visitor call |
| DependencyVerifier.Traversal.DoVisit | cmd/dependencyverifier/dependencyverifier.go:796-814 | the visitor is called first with the module and its path; a visited module is not walked again; otherwise it ends up visited, every effective child whose name is off the extended path gets a call with that path, and every later call is off its own path and below it, those directly below coming from its effective children; when no two modules share a name, every module visited so far has had a call and each one's effective children are visited or on the path |
| DependencyVerifier.Traversal.WalkChildren | cmd/dependencyverifier/dependencyverifier.go:802-812 | each child is switched to its effective version, and every one whose name is off the path gets a call with that path; no other module is called directly below the path; earlier calls and visited modules are kept |
| DependencyVerifier.NameOnPathIsOnPath | cmd/dependencyverifier/dependencyverifier.go:806 | when no two modules share a name, the by-name test finds on the path only the module itself |
| DependencyVerifier.NodesEnclosed | cmd/dependencyverifier/dependencyverifier.go:801-805 | the main module and every effective version of a referenced module form a set holding the effective children of each of its modules |
| DependencyVerifier.FinishStep | cmd/dependencyverifier/dependencyverifier.go:813 | marking a module visited once its effective children are visited or on the path keeps every visited module's children visited or on the shorter path |
| DependencyVerifier.ClosedHoldsWalk | cmd/dependencyverifier/dependencyverifier.go:792-794 | a visited set that holds the effective children of each of its modules holds the end of every walk that starts in it |
| DependencyVerifier.ChildWalkAppended | cmd/dependencyverifier/dependencyverifier.go:802-812 | the calls of one child's walk keep the facts established for the walk below the parent's path |
| DependencyVerifier.Visit | cmd/dependencyverifier/dependencyverifier.go:792-794 | the first call is for the main module with an empty path; no module is ever visited while it is on its own path; every later call comes through the main module, those directly below it from its effective children; every effective child of the main module with another name gets a call; when no two modules of the graph share a name, every module reachable from the main module through effective children gets a call |
| DiffCheck.WordLength | staging/src/k8s.io/apimachinery/pkg/util/diff/diff_test.go:27 | the word at the head of the text is non-empty, free of white space, and followed by white space or the end |
| DiffCheck.Fields | staging/src/k8s.io/apimachinery/pkg/util/diff/diff_test.go:27 | strings.Fields returns only words: non-empty runs without white space |
| DiffCheck.JoinWordsCollapsed | staging/src/k8s.io/apimachinery/pkg/util/diff/diff_test.go:27 | words joined by single spaces leave every space between two non-space characters |
| DiffCheck.NormalizeDiffCollapsed | staging/src/k8s.io/apimachinery/pkg/util/diff/diff_test.go:25-28 | normalizeDiff leaves no white space at either end, no white space but single spaces, and never two spaces in a row |
| DiffCheck.NonSpaceConcat | staging/src/k8s.io/apimachinery/pkg/util/diff/diff_test.go:27 | the non-space characters of a concatenation are those of its parts, in order |
| DiffCheck.NonSpaceWord | staging/src/k8s.io/apimachinery/pkg/util/diff/diff_test.go:27 | a word is its own non-space characters |
| DiffCheck.NonSpaceFields | staging/src/k8s.io/apimachinery/pkg/util/diff/diff_test.go:27 | the non-space characters of a text are its fields, concatenated |
| DiffCheck.NonSpaceJoin | staging/src/k8s.io/apimachinery/pkg/util/diff/diff_test.go:27 | joining words by spaces adds nothing but white space |
| DiffCheck.NormalizeKeepsNonSpace | staging/src/k8s.io/apimachinery/pkg/util/diff/diff_test.go:25-28 | normalizeDiff keeps every non-space character, in its order |
| DiffCheck.WordLengthOf | staging/src/k8s.io/apimachinery/pkg/util/diff/diff_test.go:27 | a word followed by white space or the end is read back as one whole word |
| DiffCheck.FieldsWordThen | staging/src/k8s.io/apimachinery/pkg/util/diff/diff_test.go:27 | the fields of a word followed by white space are that word, then the fields of the rest |
| DiffCheck.FieldsJoin | staging/src/k8s.io/apimachinery/pkg/util/diff/diff_test.go:27 | splitting words joined by spaces gives the same words back |
| DiffCheck.NormalizeIdempotent | staging/src/k8s.io/apimachinery/pkg/util/diff/diff_test.go:25-28 | normalizing a normalized text changes nothing |
| DiffCheck.FieldsEmptyIff | staging/src/k8s.io/apimachinery/pkg/util/diff/diff_test.go:27 | a text has no fields exactly when it is all white space |
| DiffCheck.NormalizeEmptyIff | staging/src/k8s.io/apimachinery/pkg/util/diff/diff_test.go:31-33 | the normalized result is empty exactly when the result is all white space |
| DiffCheck.CheckExpected | staging/src/k8s.io/apimachinery/pkg/util/diff/diff_test.go:30-76 | the reported failures, in order, are the content failures followed by the prefix and path failures of every line |
| DiffCheck.CheckContent | staging/src/k8s.io/apimachinery/pkg/util/diff/diff_test.go:31-46 | the content failures are an empty-diff failure when nothing was expected but something reported, otherwise one failure per expected string the result does not contain |
| DiffCheck.CheckList | staging/src/k8s.io/apimachinery/pkg/util/diff/diff_test.go:39-45 | one Missing failure for each expected string the result does not contain, in list order |
| DiffCheck.CheckPrefixes | staging/src/k8s.io/apimachinery/pkg/util/diff/diff_test.go:49-59 | one BadPrefix failure is appended for each non-empty line without a "- ", "+ " or "  " prefix |
| DiffCheck.CheckPaths | staging/src/k8s.io/apimachinery/pkg/util/diff/diff_test.go:61-74 | one BadPath failure is appended for each checked path not starting with a dot, and the list ends at a slice panic |
| DiffCheck.LineFailureKinds | staging/src/k8s.io/apimachinery/pkg/util/diff/diff_test.go:47-75 | the line checks report only bad prefixes, bad paths and the slice panic |
| DiffCheck.EmptyExpectation | staging/src/k8s.io/apimachinery/pkg/util/diff/diff_test.go:32-33 | an empty expectation fails exactly when the result holds something other than white space, and then with the single NotEmpty failure |
| DiffCheck.MissingOfExactly | staging/src/k8s.io/apimachinery/pkg/util/diff/diff_test.go:39-45 | a string is reported missing exactly when it is listed and the result does not contain it |
| DiffCheck.ListExpectation | staging/src/k8s.io/apimachinery/pkg/util/diff/diff_test.go:39-45 | with a list expectation, a string is reported missing exactly when it is listed and not contained |
| DiffCheck.ListExpectationPasses | staging/src/k8s.io/apimachinery/pkg/util/diff/diff_test.go:39-45 | a list expectation reports nothing missing exactly when the result contains every listed string |
| DiffCheck.TextExpectation | staging/src/k8s.io/apimachinery/pkg/util/diff/diff_test.go:34-38 | a non-empty string expectation reports only itself missing, and only when the result does not contain it |
| DiffCheck.PrefixFailuresExactly | staging/src/k8s.io/apimachinery/pkg/util/diff/diff_test.go:50-59 | a line is reported for its prefix exactly when it is a non-empty line without a proper prefix |
| DiffCheck.PrefixCheck | staging/src/k8s.io/apimachinery/pkg/util/diff/diff_test.go:48-59 | with any expectation but "" and a non-empty result, a line is reported for its prefix exactly when it is a non-empty line of the result without a proper prefix |
| DiffCheck.PathCheck | staging/src/k8s.io/apimachinery/pkg/util/diff/diff_test.go:61-74 | when no line panics, a path is reported exactly when it belongs to a checked line and does not start with a dot |
| DiffCheck.PrefixedLinesDoNotPanic | staging/src/k8s.io/apimachinery/pkg/util/diff/diff_test.go:56-70 | a line that passes the prefix check never makes the path slice panic |
| DiffCheck.PrefixedSliceIsByteSlice | staging/src/k8s.io/apimachinery/pkg/util/diff/diff_test.go:56-70 | a line that passes the prefix check starts with two one-byte characters, so dropping its first two characters drops exactly its first two UTF-8 bytes |
| DiffCheck.ShortPathPanics | staging/src/k8s.io/apimachinery/pkg/util/diff/diff_test.go:66-70 | "-:x" is reported for its prefix and then panics, because the text before its colon is shorter than two bytes |
| Diff.FormatString | staging/src/k8s.io/apimachinery/pkg/util/diff/diff.go:441-459 | the result is the quoted form, or the backtick form when every character may stand in it; it holds a newline only when quoting would |
| Diff.JoinPath | staging/src/k8s.io/apimachinery/pkg/util/diff/diff.go:461-467 | under an empty parent the path is the field alone, otherwise parent, a dot and the field |
| Diff.JoinPathSplits | staging/src/k8s.io/apimachinery/pkg/util/diff/diff.go:461-467 | a joined path splits at its last dot back into the parent and a field without dots |
| Diff.JoinPathAssociative | staging/src/k8s.io/apimachinery/pkg/util/diff/diff.go:461-467 | joining is associative when the middle path is non-empty or the outer one is empty |
| Diff.Prefix | staging/src/k8s.io/apimachinery/pkg/util/diff/diff.go:49-55 | every line prefix is two characters long |
| Diff.PrefixInjective | staging/src/k8s.io/apimachinery/pkg/util/diff/diff.go:335-345 | the three modes have three different prefixes |
| Diff.TabsAreTabs | staging/src/k8s.io/apimachinery/pkg/util/diff/diff.go:374-389 | the indentation is exactly n tab characters |
| Diff.LineTextParts | staging/src/k8s.io/apimachinery/pkg/util/diff/diff.go:374-389 | a written line is its mode's prefix, exactly indent tabs, the text and a newline |
| Diff.LineTextProperPrefix | staging/src/k8s.io/apimachinery/pkg/util/diff/diff.go:374-389 | every line the renderer writes starts with "- ", "+ " or two spaces |
| Diff.RenderAppend | staging/src/k8s.io/apimachinery/pkg/util/diff/diff.go:374-389 | rendering two runs of lines renders their concatenation |
| Diff.KeptAppend | staging/src/k8s.io/apimachinery/pkg/util/diff/diff.go:374-389 | one side of two runs of lines is one side of each, concatenated |
| Diff.ListEntriesStep | staging/src/k8s.io/apimachinery/pkg/util/diff/diff.go:236-257 | the lines of one more index are the lines so far followed by that index's lines |
| Diff.ListStep | staging/src/k8s.io/apimachinery/pkg/util/diff/diff.go:236-257 | writing index i after the first i indices leaves the first i + 1 written |
| Diff.FieldStep | staging/src/k8s.io/apimachinery/pkg/util/diff/diff.go:207-220 | writing field i after the first i fields leaves the first i + 1 written |
| Diff.KeyStep | staging/src/k8s.io/apimachinery/pkg/util/diff/diff.go:284-305 | writing key i after the first i keys leaves the first i + 1 written |
| Diff.DiffTextIsKind | staging/src/k8s.io/apimachinery/pkg/util/diff/diff.go:105-124 | past the invalid, type, nil-versus-empty and two-pointer branches, the report is the one chosen by kind |
| Diff.DiffContext.constructor | staging/src/k8s.io/apimachinery/pkg/util/diff/diff.go:58-73 | a diff context starts with an empty builder |
| Diff.DiffContext.WriteString | staging/src/k8s.io/apimachinery/pkg/util/diff/diff.go:58-73 | a write appends its text to the builder |
| Diff.DiffContext.WriteType | staging/src/k8s.io/apimachinery/pkg/util/diff/diff.go:323-332 | writeType appends the mode's prefix and the type |
| Diff.DiffContext.LinePrefix | staging/src/k8s.io/apimachinery/pkg/util/diff/diff.go:335-345 | a line starts with the mode's prefix followed by one tab per indentation level |
| Diff.DiffContext.WriteValue | staging/src/k8s.io/apimachinery/pkg/util/diff/diff.go:335-371 | writeValue appends one line holding the formatted value and a comma |
| Diff.DiffContext.WriteLine | staging/src/k8s.io/apimachinery/pkg/util/diff/diff.go:374-389 | writeLine appends the prefix, the indentation, the text and a newline |
| Diff.DiffContext.WriteWrapped | staging/src/k8s.io/apimachinery/pkg/util/diff/diff.go:75-103 | a value shown alone is its type in the mode, "(", its value line and ")" |
| Diff.DiffContext.DiffValues | staging/src/k8s.io/apimachinery/pkg/util/diff/diff.go:66-320 | diffValues appends exactly the report for a against b, branch by branch |
| Diff.DiffContext.DiffInvalid | staging/src/k8s.io/apimachinery/pkg/util/diff/diff.go:75-90 | an invalid side gives nothing when both are invalid, otherwise only the valid side, removed or inserted |
| Diff.DiffContext.DiffTypes | staging/src/k8s.io/apimachinery/pkg/util/diff/diff.go:93-103 | values of different types show the first removed and then the second inserted, each with its type |
| Diff.DiffContext.DiffPointer | staging/src/k8s.io/apimachinery/pkg/util/diff/diff.go:162-173 | two non-nil pointers show the pointee's report between the type and braces |
| Diff.DiffContext.DiffKind | staging/src/k8s.io/apimachinery/pkg/util/diff/diff.go:115-319 | the branches that do not recurse append the report chosen by kind |
| Diff.DiffContext.DiffScalar | staging/src/k8s.io/apimachinery/pkg/util/diff/diff.go:115-124 | two different scalars show the type as context, the old value removed and the new one inserted; equal ones show nothing |
| Diff.DiffContext.DiffNilRef | staging/src/k8s.io/apimachinery/pkg/util/diff/diff.go:127-144 | a pointer or interface nil on exactly one side shows a nil line against the other side's value |
| Diff.DiffContext.DiffStruct | staging/src/k8s.io/apimachinery/pkg/util/diff/diff.go:176-223 | a struct shows its type, braces and the lines of its fields |
| Diff.DiffContext.WriteFields | staging/src/k8s.io/apimachinery/pkg/util/diff/diff.go:207-220 | the field loop appends the lines of every field in declaration order |
| Diff.DiffContext.WriteField | staging/src/k8s.io/apimachinery/pkg/util/diff/diff.go:207-220 | an unexported field shows nothing; a changed field shows old removed and new inserted; an unchanged non-zero field is context |
| Diff.DiffContext.DiffList | staging/src/k8s.io/apimachinery/pkg/util/diff/diff.go:225-260 | a slice or array shows its type, braces and one entry per index of the longer list |
| Diff.DiffContext.WriteElements | staging/src/k8s.io/apimachinery/pkg/util/diff/diff.go:236-257 | the index loop appends the lines of every index up to the longer length |
| Diff.DiffContext.WriteIndex | staging/src/k8s.io/apimachinery/pkg/util/diff/diff.go:237-256 | an index in both lists is context when equal, removed-then-inserted when not; an index in one list only is removed or inserted |
| Diff.DiffContext.DiffMap | staging/src/k8s.io/apimachinery/pkg/util/diff/diff.go:262-308 | a map shows its type, braces and one entry per key of either map, keys in ascending order |
| Diff.DiffContext.WriteKeys | staging/src/k8s.io/apimachinery/pkg/util/diff/diff.go:284-305 | the key loop appends the lines of every key in the given order |
| Diff.DiffContext.WriteKey | staging/src/k8s.io/apimachinery/pkg/util/diff/diff.go:285-304 | a key only in b is inserted, only in a removed, with different values removed then inserted, otherwise context |
| Diff.KeyUnion | staging/src/k8s.io/apimachinery/pkg/util/diff/diff.go:266-272 | the collected keys are exactly the keys of either map |
| Diff.Diff | staging/src/k8s.io/apimachinery/pkg/util/diff/diff.go:38-46 | Diff returns "" for deeply equal values and otherwise the report diffValues writes |
| Diff.SameTypeReflexive | staging/src/k8s.io/apimachinery/pkg/util/diff/diff.go:93 | a valid value has its own type |
| Diff.DiffTextSelf | staging/src/k8s.io/apimachinery/pkg/util/diff/diff.go:66-320 | a value against itself gives an empty report |
| Diff.WrappedNotEmpty | staging/src/k8s.io/apimachinery/pkg/util/diff/diff.go:75-103 | a value shown alone is never empty |
| Diff.DiffTextEmptyIff | staging/src/k8s.io/apimachinery/pkg/util/diff/diff.go:66-320 | the report is empty exactly for equal values and for nil-versus-empty slices or maps, also inside interfaces |
| Diff.KindTextNotEmpty | staging/src/k8s.io/apimachinery/pkg/util/diff/diff.go:115-319 | every branch by kind writes something for unequal values |
| Diff.DiffEmptyIff | staging/src/k8s.io/apimachinery/pkg/util/diff/diff.go:38-46 | Diff returns "" exactly for deeply equal values and the nil-versus-empty pairs, not only for deeply equal ones |
| Diff.NilVersusEmptySilent | staging/src/k8s.io/apimachinery/pkg/util/diff/diff.go:105-111 | a nil []int against an empty one is unequal, and yet Diff returns "" |
| Diff.KeptIndex | staging/src/k8s.io/apimachinery/pkg/util/diff/diff.go:237-256 | the lines of one index keep each list's element there, when it has one |
| Diff.ElementTextsStep | staging/src/k8s.io/apimachinery/pkg/util/diff/diff.go:236-257 | the element texts of one more element add that element's text |
| Diff.ListEntriesSides | staging/src/k8s.io/apimachinery/pkg/util/diff/diff.go:236-257 | the lines of the first n indices give back the first n elements of each list |
| Diff.ListSides | staging/src/k8s.io/apimachinery/pkg/util/diff/diff.go:225-260 | the removed and context lines of a list report are the first list's elements in order, the inserted and context lines the second's |
| Diff.KeysInSorted | staging/src/k8s.io/apimachinery/pkg/util/diff/diff.go:275-281 | keeping the keys a map holds keeps a sorted key list sorted and leaves exactly those keys |
| Diff.SideTextsKeysIn | staging/src/k8s.io/apimachinery/pkg/util/diff/diff.go:284-305 | one side of a map report depends only on the keys that map holds |
| Diff.KeptKey | staging/src/k8s.io/apimachinery/pkg/util/diff/diff.go:285-304 | the lines of one key keep each map's entry for it, when it has one |
| Diff.MapEntriesSides | staging/src/k8s.io/apimachinery/pkg/util/diff/diff.go:284-305 | the lines of a run of keys give back each map's entries among them |
| Diff.MapSides | staging/src/k8s.io/apimachinery/pkg/util/diff/diff.go:262-308 | the removed and context lines of a map report are the first map's entries in ascending key order, the inserted and context lines the second's |
| Diff.OneSide | staging/src/k8s.io/apimachinery/pkg/util/diff/diff.go:275-305 | in a sorted list covering a map's keys, that map's side is its entries in ascending key order |
| Diff.FieldEntriesKeep | staging/src/k8s.io/apimachinery/pkg/util/diff/diff.go:207-220 | a line printed for one of the first n fields is still printed once more fields follow |
| Diff.ChangedFieldShown | staging/src/k8s.io/apimachinery/pkg/util/diff/diff.go:212-215 | an exported field that changed shows its old value removed and its new value inserted |
| Diff.UnexportedChangesHidden | staging/src/k8s.io/apimachinery/pkg/util/diff/diff.go:207-220 | when every exported field is the same on both sides, all the struct's lines are context: changes to unexported fields are not reported |
| WatchCache.ElementOf | staging/src/k8s.io/apiserver/pkg/storage/cacher/watch_cache_test.go:71-78 | the store element of a pod carries the pod's key, the pod, its labels and its node name under "spec.nodeName" |
| WatchCache.KeyOfInjective | staging/src/k8s.io/apiserver/pkg/storage/cacher/watch_cache_test.go:117-119 | within one namespace two pods share a key exactly when they share a name |
| WatchCache.StoreOf | staging/src/k8s.io/apiserver/pkg/storage/cacher/watch_cache_test.go:257-275 | every element the rebuilt store holds sits under its own key |
| WatchCache.StoreOfKeys | staging/src/k8s.io/apiserver/pkg/storage/cacher/watch_cache_test.go:257-275 | after Replace the store holds exactly the keys of the given objects |
| WatchCache.StoreOfLastWins | staging/src/k8s.io/apiserver/pkg/storage/cacher/watch_cache_test.go:257-275 | each key holds the element of the last object with that key |
| WatchCache.Push | staging/src/k8s.io/apiserver/pkg/storage/cacher/watch_cache_test.go:135-140 | the window after recording an event never exceeds the ring's capacity by more than one |
| WatchCache.PushBounds | staging/src/k8s.io/apiserver/pkg/storage/cacher/watch_cache_test.go:283-284 | recording keeps the window within capacity and ends it with the new event, evicting the oldest only when the ring is full |
| WatchCache.PushKeepsNewest | staging/src/k8s.io/apiserver/pkg/storage/cacher/watch_cache_test.go:351-376 | the window after recording is the newest events of the old window followed by the new one |
| WatchCache.PushIncreasing | staging/src/k8s.io/apiserver/pkg/storage/cacher/watch_cache_test.go:351-376 | recording an event newer than the whole window keeps revisions strictly increasing |
| WatchCache.CountUpTo | staging/src/k8s.io/apiserver/pkg/storage/cacher/watch_cache_test.go:87-106 | the split point of the window lies within it |
| WatchCache.CountUpToSplits | staging/src/k8s.io/apiserver/pkg/storage/cacher/watch_cache_test.go:87-106 | in an increasing window every event before the split point is at or before rv and every event after it is later |
| WatchCache.CountUpToUnique | staging/src/k8s.io/apiserver/pkg/storage/cacher/watch_cache_test.go:87-106 | any position with all events before it at or before rv and all after it later is the split point |
| WatchCache.SinceExactlyNewer | staging/src/k8s.io/apiserver/pkg/storage/cacher/watch_cache_test.go:298-316 | a successful answer holds exactly the window's events after rv, in increasing order, none skipped and none repeated |
| WatchCache.SuffixAbove | staging/src/k8s.io/apiserver/pkg/storage/cacher/watch_cache_test.go:298-316 | the events after the split point of an increasing window are increasing, all above rv, and include every event above rv |
| WatchCache.SinceTooOldIff | staging/src/k8s.io/apiserver/pkg/storage/cacher/watch_cache_test.go:322-327 | the query fails as too old exactly when rv is before the revision preceding the oldest one the window can serve |
| WatchCache.SinceAfterRelist | staging/src/k8s.io/apiserver/pkg/storage/cacher/watch_cache_test.go:403-436 | right after a Replace at revision v, with nothing evicted, a watch from before v is too old and a watch from v or later gets exactly the events after it |
| WatchCache.LabelMatchesPinned | staging/src/k8s.io/apiserver/pkg/storage/cacher/watch_cache_test.go:483-503 | every label candidate names an offered label index and the value the label selector pins |
| WatchCache.FieldMatchesPinned | staging/src/k8s.io/apiserver/pkg/storage/cacher/watch_cache_test.go:505-525 | every field candidate names an offered field index and the value the field selector pins |
| WatchCache.ChooseIndex | staging/src/k8s.io/apiserver/pkg/storage/cacher/watch_cache_test.go:441-458 | a chosen index is a candidate and registered; no index is chosen exactly when no candidate is registered |
| WatchCache.ChooseIndexAppend | staging/src/k8s.io/apiserver/pkg/storage/cacher/watch_cache_test.go:441-458 | choosing over two candidate lists takes the first list's choice when it has one |
| WatchCache.LabelIndexPreferred | staging/src/k8s.io/apiserver/pkg/storage/cacher/watch_cache_test.go:441-458 | in the model's own order (see ChooseIndex under Left out), a registered label index that the selector pins always wins over every field index |
| WatchCache.LabelMatchesComplete | staging/src/k8s.io/apiserver/pkg/storage/cacher/watch_cache_test.go:483-503 | every offered label that the selector pins is a candidate |
| WatchCache.SlotsDistinct | staging/src/k8s.io/apiserver/pkg/storage/cacher/watch_cache_test.go:135-140 | positions less than the capacity apart fall on different ring slots |
| WatchCache.RingEvict | staging/src/k8s.io/apiserver/pkg/storage/cacher/watch_cache_test.go:135-140 | clearing the oldest slot and advancing the start drops the oldest event from the window |
| WatchCache.RingPush | staging/src/k8s.io/apiserver/pkg/storage/cacher/watch_cache_test.go:135-140 | writing the slot after the window appends the event to the window |
| WatchCache.WatchCache.constructor | staging/src/k8s.io/apiserver/pkg/storage/cacher/watch_cache_test.go:116-143 | a new cache has an empty store, an empty window, revision 0 and a ring of the given capacity |
| WatchCache.WatchCache.UpdateCache | staging/src/k8s.io/apiserver/pkg/storage/cacher/watch_cache_test.go:283-284 | recording an event evicts the oldest one exactly when the ring is full, keeps the ring valid and the window increasing, and leaves the store alone |
| WatchCache.WatchCache.EvictOldest | staging/src/k8s.io/apiserver/pkg/storage/cacher/watch_cache_test.go:283-284 | clearing the oldest slot drops the oldest event, marks an eviction since the last relist and keeps the ring valid |
| WatchCache.WatchCache.AppendEvent | staging/src/k8s.io/apiserver/pkg/storage/cacher/watch_cache_test.go:283-284 | writing the slot after the window appends the event and keeps the ring valid and increasing |
| WatchCache.WatchCache.ProcessEvent | staging/src/k8s.io/apiserver/pkg/storage/cacher/watch_cache_test.go:205-233 | the event carries the stored object it replaces as its previous object; the store follows the event; the revision becomes the object's |
| WatchCache.WatchCache.Add | staging/src/k8s.io/apiserver/pkg/storage/cacher/watch_cache_test.go:205-216 | an Added event without a previous object, when none was stored; the store then holds the pod's element under its key |
| WatchCache.WatchCache.Update | staging/src/k8s.io/apiserver/pkg/storage/cacher/watch_cache_test.go:217-226 | a Modified event carrying the stored version as previous object; the store holds the new element under the same key |
| WatchCache.WatchCache.Delete | staging/src/k8s.io/apiserver/pkg/storage/cacher/watch_cache_test.go:227-233 | a Deleted event carrying the deleted pod and the stored version; the key leaves the store |
| WatchCache.WatchCache.Get | staging/src/k8s.io/apiserver/pkg/storage/cacher/watch_cache_test.go:209-216 | Get finds an element exactly when the pod's key is stored, and returns the element stored under that key |
| WatchCache.WatchCache.List | staging/src/k8s.io/apiserver/pkg/storage/cacher/watch_cache_test.go:235-255 | List returns exactly the stored elements |
| WatchCache.WatchCache.Replace | staging/src/k8s.io/apiserver/pkg/storage/cacher/watch_cache_test.go:257-275 | the store becomes exactly the given objects, the window empties, and both revisions become the Replace's |
| WatchCache.WatchCache.EventAt | staging/src/k8s.io/apiserver/pkg/storage/cacher/watch_cache_test.go:93-105 | the event at a window position is read from its ring slot |
| WatchCache.WatchCache.SearchAfter | staging/src/k8s.io/apiserver/pkg/storage/cacher/watch_cache_test.go:87-106 | the binary search finds the first window position after rv |
| WatchCache.WatchCache.CollectFrom | staging/src/k8s.io/apiserver/pkg/storage/cacher/watch_cache_test.go:93-105 | the loop copies the window from the found position to its end, slot by slot |
| WatchCache.WatchCache.EventsSince | staging/src/k8s.io/apiserver/pkg/storage/cacher/watch_cache_test.go:87-106 | the answer is the events-since result of the window: too old, or exactly the events after rv |
| WatchCache.WatchCache.FirstRegistered | staging/src/k8s.io/apiserver/pkg/storage/cacher/watch_cache_test.go:441-458 | the loop chooses the first candidate whose index is registered |
| WatchCache.WatchCache.ListSelected | staging/src/k8s.io/apiserver/pkg/storage/cacher/watch_cache_test.go:468-548 | the items are in strictly increasing key order, their keys are exactly the selected ones, and each is the stored element |
| WatchCache.WatchCache.WaitUntilFreshAndList | staging/src/k8s.io/apiserver/pkg/storage/cacher/watch_cache_test.go:439-548 | an unreached revision is refused as too large; otherwise the current revision, the name of the chosen index or "" and, in key order, the elements under the prefix in that index's bucket |
| WatchCacheScenarios.ElementOfTestPod | staging/src/k8s.io/apiserver/pkg/storage/cacher/watch_cache_test.go:71-78 | the cache's key and attribute functions give the key and store element the tests expect |
| WatchCacheScenarios.GetScenario | staging/src/k8s.io/apiserver/pkg/storage/cacher/watch_cache_test.go:200-233 | Get finds the added and then the updated element, and nothing after Delete |
| WatchCacheScenarios.ListScenario | staging/src/k8s.io/apiserver/pkg/storage/cacher/watch_cache_test.go:235-255 | after three Adds List returns exactly the three elements |
| WatchCacheScenarios.ReplaceScenario | staging/src/k8s.io/apiserver/pkg/storage/cacher/watch_cache_test.go:257-275 | after Replace List returns exactly the replaced elements and no earlier one |
| WatchCacheScenarios.AddedEventsScenario | staging/src/k8s.io/apiserver/pkg/storage/cacher/watch_cache_test.go:286-316 | with one Add at 3 in a ring of 5, a watch from 1 is too old and a watch from 2 gets one Added event without a previous object |
| WatchCacheScenarios.RecordedStep | staging/src/k8s.io/apiserver/pkg/storage/cacher/watch_cache_test.go:351-353 | recording the next Update keeps the ring holding the last five recorded revisions |
| WatchCacheScenarios.RecordUpdate | staging/src/k8s.io/apiserver/pkg/storage/cacher/watch_cache_test.go:318-319 | one Update of the test records the next revision |
| WatchCacheScenarios.AddedCache | staging/src/k8s.io/apiserver/pkg/storage/cacher/watch_cache_test.go:279-286 | the test's ring of 5 after its Add at 3 |
| WatchCacheScenarios.TestEventsCache | staging/src/k8s.io/apiserver/pkg/storage/cacher/watch_cache_test.go:279-353 | the test's ring after the Add and the Updates up to a revision holds the last five recorded events |
| WatchCacheScenarios.ModifiedEventsScenario | staging/src/k8s.io/apiserver/pkg/storage/cacher/watch_cache_test.go:318-349 | after Updates at 4 and 5 a watch from 1 is still too old and a watch from 3 gets two Modified events, each carrying the version it replaced |
| WatchCacheScenarios.EvictedEventsScenario | staging/src/k8s.io/apiserver/pkg/storage/cacher/watch_cache_test.go:351-376 | once Updates 6 to 9 fill the ring, a watch from 3 is too old and a watch from 4 gets revisions 5 to 9 in order |
| WatchCacheScenarios.DeletedEventsScenario | staging/src/k8s.io/apiserver/pkg/storage/cacher/watch_cache_test.go:378-399 | after a Delete at 10 a watch from 9 gets one Deleted event carrying the pod and, as previous object, the version at 9 |
| WatchCacheScenarios.MarkerScenario | staging/src/k8s.io/apiserver/pkg/storage/cacher/watch_cache_test.go:403-436 | after Replace at 9 in a ring of 3, a watch from 8 is too old, one from 9 gets nothing, and after an Add at 12 one from 9 gets exactly that event |
| WatchCacheScenarios.IndexedCache | staging/src/k8s.io/apiserver/pkg/storage/cacher/watch_cache_test.go:441-466 | the test's cache holds pod1 and pod2 on node1 labelled value1 and pod3 on node2 labelled value2, at revision 5, with the label and node-name indexes |
| WatchCacheScenarios.IndexedScan | staging/src/k8s.io/apiserver/pkg/storage/cacher/watch_cache_test.go:468-481 | a full scan selects all three keys |
| WatchCacheScenarios.IndexedLabelBucket | staging/src/k8s.io/apiserver/pkg/storage/cacher/watch_cache_test.go:483-503 | the "label" bucket of value1 holds pod1 and pod2 |
| WatchCacheScenarios.IndexedFieldBucket | staging/src/k8s.io/apiserver/pkg/storage/cacher/watch_cache_test.go:505-525 | the node-name bucket of node2 holds pod3 |
| WatchCacheScenarios.ListEverythingScenario | staging/src/k8s.io/apiserver/pkg/storage/cacher/watch_cache_test.go:468-481 | a match-everything predicate uses no index and lists all three pods in key order at revision 5 |
| WatchCacheScenarios.ListByLabelScenario | staging/src/k8s.io/apiserver/pkg/storage/cacher/watch_cache_test.go:483-503 | pinning the indexed label lists the "l:label" bucket: pod1 and pod2 |
| WatchCacheScenarios.ListByFieldScenario | staging/src/k8s.io/apiserver/pkg/storage/cacher/watch_cache_test.go:505-525 | pinning the indexed node name lists the "f:spec.nodeName" bucket: pod3 |
| WatchCacheScenarios.ListUnpinnedScenario | staging/src/k8s.io/apiserver/pkg/storage/cacher/watch_cache_test.go:527-548 | an offered label the selector does not pin gives a full scan with no index and all three pods |

Some specification functions carry no contract of their own. The rows of
the members that state their properties describe them:

- `DiffCheck.NormalizeDiff`: NormalizeDiffCollapsed, NormalizeKeepsNonSpace
  and NormalizeIdempotent.
- `DependencyVerifier.ModuleString`: ParseThenString, StringThenParse and
  TrailingAtDropped.
- `DependencyVerifier.Converted`: ConvertToMap, ConvertedEdges,
  MainsDistinct and MainsAreSources.
- `DependencyVerifier.EffectiveChildren`: NodesEnclosed and the walk's
  members (Traversal.DoVisit, Traversal.WalkChildren and Visit).
- `SortFeatures.AppliedInOrder`: the processFile loop as written
  (`main.go:116-129`). SingleRewriteAgrees, AppliedTwo and
  StaleOffsetsAsWritten describe it.
- `ListRouting.ParseInt`: ClampedResourceVersion, ParseZero and
  NegativeStringParsesNonPositive.
- `WatchCache.KeyOf`: KeyOfInjective, StoreOfKeys and ElementOf.
- `WatchCache.Since`: SinceExactlyNewer, SuffixAbove, SinceTooOldIff,
  SinceAfterRelist and WatchCache.EventsSince.
- `PatchImports.Strip`, `StripLeft` and `StripRight`: StripTrims,
  StripLeftSuffix and StripRightPrefix.
- `SortedFeatures.FeaturesOf`: ReportedHasInversion.

## Left out

- Input and output of every tool are left out. That covers command-line
  flags (cobra), reading and writing files, globbing, running `go mod graph`
  and `go list`, logging and exit codes. Each tool is modelled from the
  point where it holds the text or the parsed data.
- Go's parser is not modelled. Declarations, specs, their positions and the
  comment groups attached to them are inputs, given as `GoAst` values.
- The linter's report text is left out: the spew dump, the unified diff
  (difflib) and `analysis.Pass`. A report is the position of the offending
  block.
- Diff's formatting primitives are parameters of the renderer and are not
  interpreted: `%v` formatting, `strconv.Quote` and `unicode.IsPrint`.
- Diff.DiffContext.DiffPointer: pointer-cycle detection (the visited maps)
  is not modelled, because the value datatype is finite.
- Diff.Diff: floats, complex numbers, channels and functions appear only
  as scalars printed with `%v`. Map keys are ordered by their printed text.
  Strings are sequences of characters, not of UTF-8 bytes.
- NameSort.SortByName: `sort.Slice` is not stable. The model's sort is a
  stable insertion sort, which is one of the orders `sort.Slice` may
  produce.
- DiffCheck.CheckPaths: the path slice drops two characters, where the
  test drops two UTF-8 bytes. The two differ only when a non-ASCII
  character is among the first two characters of the line. Such a line
  has already failed the prefix check, and PrefixedSliceIsByteSlice shows
  that every line passing it starts with two one-byte characters. On such
  a line the model may report a different path (for "é.a:x" it reports
  "a" where the test reports ".a"), or a panic the test does not have
  (for "é:x").
- DiffCheck.PathCheck: the reported path is taken by characters, not by
  UTF-8 bytes, with the same gap as DiffCheck.CheckPaths.
- DiffCheck.CheckExpected: the path failures are taken by characters,
  not by UTF-8 bytes, with the same gap as DiffCheck.CheckPaths.
- SortFeatures.ProcessFile: its precondition BlocksPlaced also excludes
  two feature blocks on one line (for example
  `var (a = 1; b = 2); const (c = 1; d = 2)`), which the source accepts.
  Such files are not modelled.
- DependencyVerifier.Visit: that every module reachable from the main
  module gets a call is stated only when no two modules of the graph share
  a name. When two versions of one module are both reachable, the by-name
  path test can skip one of them, and modules reachable only through the
  skipped one may never be called.
- DependencyVerifier.Traversal: the visitor callback is modelled as the
  list of the calls it receives. Sharing of the `via` slice between
  recursive calls (aliasing of its backing array) is not modelled.
- PatchImports.PatchFile: the list insertion is modelled as a returned
  sequence, and the file and glob handling around it is left out.
- The source of the watch cache itself (`watch_cache.go`) is not part of
  this model. `WatchCache.WatchCache` is modelled from the behaviour its
  tests pin down.
- WatchCache.WatchCache.EventsSince: requires a resource version above 0.
  A watch from revision 0 is served from the store, and that path is not
  modelled.
- WatchCache.WatchCache.Add: Add, Update and Delete require resource
  versions that increase. The binary search over the ring relies on that
  order. Replace requires nothing of its resource version, so it may move
  the cache's revision backwards.
- WatchCache.KeyOf: namespace and name validation by `NamespaceKeyFunc` is
  not modelled.
- The `metadata.namespace` index is not modelled. Only the label index and
  the `spec.nodeName` field index of the tests are.
- WatchCache.WatchCache.WaitUntilFreshAndList: waiting for a revision the
  cache has not reached is replaced by a `TooLarge` error.
  `WaitUntilFreshAndGet` is not modelled on its own.
- The bookmark variant of the list tests is not modelled.
- Neither are the progress requester, timers, goroutines or the fake clock.
- The ring's capacity is fixed at construction. Dynamic resizing of the
  event window is not modelled.
- WatchCache.ChooseIndex: label indexes are tried before field indexes.
  That order is the model's choice, not the program's. The tests never
  offer a label index and a field index together. `SelectionPredicate`'s
  index matching, which fixes the real order, is not part of this model.
- WatchCache.WatchCache.WaitUntilFreshAndList: the caller's filter of the
  returned bucket by the whole selection predicate is not modelled. The
  cacher that applies it is not part of this model.
- ContinueToken.EncodeContinue: the JSON and base64url encoding (section 5
  of RFC 4648) is not modelled. The token record itself is what is
  encoded and decoded.
- `continue.go` is not part of this model. ContinueToken.DecodeContinue
  follows the cases of `continue_test.go`.
- Feature gates and the state flags of the tests are plain booleans
  (ListRouting, Fallback).
- `backend_test.go`, `multi_range_allocator.go`, `tf_compat.py`,
  `plugin.go`, `cmd/gce/main.go` and `apparmor_linux.go` are outside the
  modelled core. `cmd/sortfeatures/test.go` is only a fixture.

## Findings

| source | as written | input that shows it | evidently intended | confidence | as-written member | corrected member |
|---|---|---|---|---|---|---|
| cmd/sortfeatures/main.go:116-129 | processFile applies each block's rewrite to the already rewritten content, in file order, at offsets taken from the original content | given at the level of the parsed declarations: a text `const (\n\tb\n\ta\n)\n` followed by `var (\n\td\n\tc\n)\n` whose specs are the bare names (a file Go parses, such as `package p\n\nconst (\n\tb = 1\n\ta = 2\n)\n\nvar (\n\td = 1\n\tc = 2\n)\n`, goes wrong the same way): both blocks are reordered, the first grows by one blank line, and the second rewrite lands one character early | each block rewritten in place at its original offsets: `const (\n\ta\n\n\tb\n)\n` followed by `var (\n\tc\n\n\td\n)\n` | high, not executed | SortFeatures.StaleOffsetsAsWritten | SortFeatures.ApplyFromLast |
| cmd/dependencyverifier/dependencyverifier.go:157-163 | difference tests each element of b against what is left of the a-side map: the first occurrence of an element of a deletes it there, so a later occurrence is not found and goes into b - a; latent, since every caller's b repeats no name: the referencer lists are kept free of repeated names (dependencyverifier.go:569) and the vendored list comes from map keys (dependencyverifier.go:655-660) | a = ["x"], b = ["x", "x"]: "x" is reported in b - a | b - a is the elements of b not in a, here empty | medium, not executed | DependencyVerifier.RepeatedElementReported | DependencyVerifier.DifferenceCorrected |
