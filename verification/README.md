# Verified core of RepoRigor

This project models the analyses at the heart of RepoRigor and proves what they promise. RepoRigor finds duplicated
code, maps coverage onto functions, runs mutation tests, sanitizes compiler commands and measures syntax trees; each of
these replaces a simple definition by an indexed, streaming, bounded or incremental computation. The model follows the
code step by step where it works on state (classes with fields, arrays updated in place, loops over cursors and stacks)
and proves each such method against a definition that says what the result means.

| files | part of the program |
|---|---|
| `WorkBudget`, `RollingHash`, `WindowIndex`, `Regions`, `DiagonalMemo`, `Candidates`, `Selection`, `ExactDuplicates` | exact duplicates: rolling hash, window index, maximal extension with a memo, greedy selection |
| `Dice`, `ShingleIndex`, `DisjointSet`, `FunctionClones` | function clones: shingle index, bounded similarity, components |
| `Evidence`, `FallbackGroups` | clone identity, consolidation and selection of exact groups |
| `OwnedSegments`, `AmbiguitySweep`, `CoverageMapping` | coverage of functions: interval complement, sweep line, classification |
| `CoverageReports`, `CoverageBudget`, `LlvmExport`, `CoberturaReport`, `Paths` | coverage artifacts: merging, budgets, preflights, path components |
| `Utf8`, `Capture`, `MutationPlan`, `MutationRun` | bounded output capture and the mutation run |
| `Tokenizer`, `PosixQuoting`, `ClangFlags`, `Sanitizer` | compiler command tokenizer, its relation to the shell, and the sanitizer |
| `SyntaxTree` | traversals and measures of syntax trees |
| `CfgPredicates` | conditional-compilation predicates |
| `Wrappers`, `Basics`, `Sorting`, `FiniteSets` | results, options, shared small definitions, the sorts of the standard library, set sizes |

Conventions. Machine words are integers with wrap-around or saturation written out. Floating-point similarity, percentages
and scores are real numbers. Token hashers, path normalization, the compiler-driver test and the answers of the
operating system are parameters, so the results hold for every choice of them. Files of a token map are named by their
position in it. Failures are `Result` values.

Where the code and its intent differ, the code is modelled, an input shows the difference and a theorem says exactly
where it lies:

- The target gate of attributes looks one `cfg_attr` deep only (`CfgPredicates.UngatedNestedDepends`,
  `CfgPredicates.GateMissesNested`).
- The test-only analysis of predicates misses some that are false outside tests, under negation and otherwise
  (`CfgPredicates.RequiresTestMissesNegation`, `CfgPredicates.RequiresTestMissesFalse`; exactly which, in
  `CfgPredicates.RequiresTestExact` and `CfgPredicates.RequiresTestRightByChoice`).
- The test-only analysis of attributes also finds `bench`, and `test` with arguments, which stay active
  (`CfgPredicates.BenchStaysActive`, `CfgPredicates.RequiredTestInactive`).
- The command tokenizer drops every escaping backslash inside double quotes and keeps an escaped newline, unlike the POSIX Shell
  Command Language (`PosixQuoting.PosixKeepsBackslash`, `PosixQuoting.PosixDropsNewline`, `PosixQuoting.PosixExactly`).
- Sanitizing a sanitized command adds two arguments to it (`Sanitizer.ResanitizedGainsTwo`).

Verify with `dafny verify dfyconfig.toml`.

## Model

| member | source | states |
|---|---|---|
| `WorkBudget.Work.Consume` | crates/analysis-dry/src/lib.rs:179-184 | A charge succeeds exactly when it stays within the limit; a refused charge is not recorded and names the amount required. |
| `RollingHash.WrappingPow` | crates/analysis-dry/src/lib.rs:1514-1524 | Square-and-multiply with 64-bit wrap-around gives the mathematical power modulo 2^64, for every base and exponent. |
| `RollingHash.AppendDirect` | crates/analysis-dry/src/lib.rs:155-170 | Appending a token in both wrapping lanes extends the direct polynomial fold by one token. |
| `RollingHash.RollDirect` | crates/analysis-dry/src/lib.rs:1471-1512 | Subtracting the outgoing token and appending the incoming one turns a window value into the next window value, in either lane. |
| `RollingHash.WindowFingerprints` | crates/analysis-dry/src/lib.rs:1471-1512 | The callback sees, for every start and every window size of at least 1, exactly the direct polynomial fingerprint of that window. |
| `WindowIndex.BuildWindowIndex` | crates/analysis-dry/src/lib.rs:491-534 | The index exists exactly when the window and bucket budgets suffice; it then maps exactly the fingerprints that occur to the first `cap` windows that have them, in file order. A failure names the budget that is really exceeded. |
| `WindowIndex.EqualWindowsEqualKeys` | crates/analysis-dry/src/lib.rs:491-534 | Windows with equal token values always share a bucket, for every token hasher. |
| `Regions.WindowsEqual` | crates/analysis-dry/src/lib.rs:1549-1560 | The comparison answers whether the two windows are equal, including windows that run past the end. |
| `Regions.ExtendMatch` | crates/analysis-dry/src/lib.rs:1589-1601 | Extending an equal pair of windows gives an equal region that can be extended on neither side and contains the pair. |
| `Regions.MaximalUnique` | crates/analysis-dry/src/lib.rs:1589-1601 | Two maximal regions that contain the same pair of windows are the same region. |
| `DiagonalMemo.RememberExtendedRegion` | crates/analysis-dry/src/lib.rs:725-738 | Merging overlapping and adjacent intervals leaves a sorted list that covers exactly the old positions and the new interval. |
| `DiagonalMemo.MemoExactStep` | crates/analysis-dry/src/lib.rs:625-645 | The memo stays exact: on every diagonal it covers exactly the window starts of the regions found so far. |
| `DiagonalMemo.CoveredPairFound` | crates/analysis-dry/src/lib.rs:617-623 | A pair is skipped only when a region already found contains it. |
| `Candidates.CandidateBuilder.ProcessPair` | crates/analysis-dry/src/lib.rs:598-615 | Handling a pair leaves every equal pair contained in a found maximal region and keeps memo and candidates exact for the regions found. |
| `Candidates.CandidateBuilder.ProcessBucket` | crates/analysis-dry/src/lib.rs:589-596 | All pairs of a bucket are handled or the work budget is really exhausted. |
| `ExactDuplicates.FoundExactly` | crates/analysis-dry/src/lib.rs:536-544 | Whatever the occurrence cap: when every pair of every listed window has been handled, exactly those maximal regions have been found that hold, at one offset, two windows each among the first `cap` with its fingerprint. |
| `ExactDuplicates.ListedIffFiled` | crates/analysis-dry/src/lib.rs:491-534 | A window is in the index exactly when fewer than `cap` windows before it share its fingerprint. |
| `ExactDuplicates.AllRegionsFindable` | crates/analysis-dry/src/lib.rs:536-544 | When no bucket hit the occurrence cap, these are all maximal regions of at least `min_tokens` tokens. |
| `ExactDuplicates.OutputOrder` | crates/analysis-dry/src/lib.rs:1644-1658 | The comparison of sort keys is the output order: more tokens first, then file, lines and token span of the first and of the second location. |
| `ExactDuplicates.ContainedIsInside` | crates/analysis-dry/src/lib.rs:1623-1634 | A duplicate is contained in another exactly when every token position of both its locations lies in the other's. |
| `Selection.SelectNonRedundant` | crates/analysis-dry/src/lib.rs:744-759 | The loop returns the first `limit` groups of the unlimited greedy selection. |
| `Selection.GreedyIsMaximals` | crates/analysis-dry/src/lib.rs:744-759 | On groups listed largest first and a transitive redundancy, greedy selection returns exactly the maximal groups, in order. |
| `Selection.GreedyCovers` | crates/analysis-dry/src/lib.rs:744-759 | Every group is selected or redundant with respect to a selected one. |
| `ExactDuplicates.ValidateLimits` | crates/analysis-dry/src/lib.rs:343-354 | Exactly the configurations within the minimum and the immutable hard limits are accepted. |
| `ExactDuplicates.FindDuplicatesWithBudget` | crates/analysis-dry/src/lib.rs:326-341 | A successful run has found exactly the regions that the capped index can show, and reports exactly the first `maxGroups` of their maximal duplicates in output order: sizes, files, token spans and lines as the regions have them, none inside another, none overlapping itself; below the group limit every duplicate it drops is inside a reported one. If no bucket was capped, the regions are all maximal ones. A failing run reports nothing and names an invalid limit, or a budget that is really too small: for the candidate work, smaller than pairs of listed windows times the longest file. |
| `Dice.DiceSimilarity` | crates/analysis-dry/src/lib.rs:1207-1241 | On sorted lists the merge returns the exact multiset Dice similarity whenever that reaches the threshold and a value below the threshold otherwise, charging at most the combined length. |
| `Dice.RejectedBelow` | crates/analysis-dry/src/lib.rs:1243-1253 | The early exit rejects only pairs whose similarity is below the threshold. |
| `Dice.SimilarPassesFilters` | crates/analysis-dry/src/lib.rs:1272-1278 | A pair that reaches a positive threshold passes the size filter and shares a shingle. |
| `FunctionClones.IdentitySimilarity` | crates/analysis-dry/src/lib.rs:873-890 | Comparing sorted shingle identities gives exactly the multiset Dice similarity of the token shingles. |
| `ShingleIndex.BuildFunctionShingleIndex` | crates/analysis-dry/src/lib.rs:1038-1113 | Every listed identity denotes the shingle at its position even when fingerprints collide, variants of a fingerprint differ in content, and every bucket lists the first `cap` functions that own its shingle. Success means the counted windows and the distinct shingles are within their budgets; a failure names the budget that is really exceeded. |
| `ShingleIndex.CountShinglesIsTotal` | crates/analysis-dry/src/lib.rs:1045-1054 | The windows counted are never fewer than the shingles indexed, and as many exactly when no function is shorter than a shingle. |
| `ShingleIndex.DenotesInjective` | crates/analysis-dry/src/lib.rs:1038-1137 | Two shingles are equal exactly when their identities are. |
| `FunctionClones.FunctionCandidatePairs` | crates/analysis-dry/src/lib.rs:1157-1177 | The candidates are exactly the pairs that some bucket lists and that pass the size filter. |
| `FunctionClones.CandidateIsListed` | crates/analysis-dry/src/lib.rs:1157-1177 | A similar pair is a candidate exactly when both functions are among the first `cap` owners of some common shingle. |
| `FunctionClones.UncappedListed` | crates/analysis-dry/src/lib.rs:1157-1177 | Without capped buckets these are all similar pairs. |
| `FunctionClones.AcceptedAreSimilar` | crates/analysis-dry/src/lib.rs:873-890 | The accepted pairs are exactly the similar pairs with a common shingle that lists both functions, each with its exact similarity. |
| `DisjointSets.DisjointSet.Root` | crates/analysis-dry/src/lib.rs:809-821 | Root search terminates with the root of the node; path compression changes no root. |
| `DisjointSets.DisjointSet.Union` | crates/analysis-dry/src/lib.rs:823-835 | The two classes get the smaller of their roots and all other roots stay. |
| `DisjointSets.JoinedRepresents` | crates/analysis-dry/src/lib.rs:823-835 | After a union the forest represents the connectivity of one more edge. |
| `DisjointSets.SameRootIffConnected` | crates/analysis-dry/src/lib.rs:798-836 | After any sequence of unions two indices share a root exactly when a path of united pairs joins them. |
| `DisjointSets.RootIsLeast` | crates/analysis-dry/src/lib.rs:798-836 | The root is the least member of its class. |
| `FunctionClones.ComponentMembers` | crates/analysis-dry/src/lib.rs:892-899 | Each root lists exactly the members of its class in increasing order. |
| `FunctionClones.ComponentSimilarities` | crates/analysis-dry/src/lib.rs:901-911 | Each root of an accepted pair is given the minimum similarity of its accepted pairs. |
| `FunctionClones.FindFunctionGroups` | crates/analysis-dry/src/lib.rs:838-869 | A successful run returns exactly the connected components, with at least two members, of the similar pairs that share a shingle for which both are among the first `cap` owners, each with its least similarity, ordered by least member; without capped buckets these are all similar pairs. A failing run names a budget that is really exceeded. |
| `Evidence.EncodedComponents` | crates/analysis-dry/src/lib.rs:1401-1409 | The loop writes the length-prefixed encoding of the list. |
| `Evidence.EncodedInjective` | crates/analysis-dry/src/lib.rs:1401-1409 | Different lists of byte strings have different encodings. |
| `Evidence.CloneGroupIdIffSameOccurrences` | crates/analysis-dry/src/lib.rs:1393-1399 | The text that identifies a clone group is the same exactly for permutations of the same (path, symbol, evidence) occurrences. |
| `FallbackGroups.ExactFallbackGroups` | crates/analysis-dry/src/lib.rs:1294-1332 | Grouping by encoded evidence groups by length and token sequence: each group holds, once and in output order, every reported location of its length with its tokens; every reported location is in a group; no group repeats. |
| `FallbackGroups.CollectedValues` | crates/analysis-dry/src/lib.rs:1381-1387 | The locations collected under one evidence text are exactly the reported ones with that token sequence. |
| `FallbackGroups.Deduplicate` | crates/analysis-dry/src/lib.rs:1294-1332 | Removing adjacent repetitions from the sorted list keeps its members and leaves each token range once. |
| `FallbackGroups.ReportedAreSound` | crates/analysis-dry/src/lib.rs:262-272 | Whatever the exact detector reports meets what the consolidation relies on. |
| `FallbackGroups.SelectIndependentExactGroups` | crates/analysis-dry/src/lib.rs:1344-1356 | The groups are considered longest first. The selection lists, in that order, the groups at exactly the positions where at least two locations share no line with any location of the groups kept at earlier positions. |
| `FallbackGroups.SelectFromSorted` | crates/analysis-dry/src/lib.rs:1346-1355 | The span bookkeeping keeps, from a sorted list, exactly the positions at which two locations are free of the groups kept before. |
| `FallbackGroups.GroupOrder` | crates/analysis-dry/src/lib.rs:1644-1658 | Groups are ordered by more tokens first and then location by location, a list before its extensions. |
| `FallbackGroups.ApartSharesNoLine` | crates/analysis-dry/src/lib.rs:1358-1370 | Two spans are apart exactly when no line of the file lies in both. |
| `FallbackGroups.SelectionIndependent` | crates/analysis-dry/src/lib.rs:1334-1379 | Every kept group has two locations on lines that no earlier kept group reports; of a dropped group at most one location is on lines the kept groups leave free. |
| `OwnedSegments.InteriorsLines` | crates/analysis-crap/src/lib.rs:628-638 | The clamped and saturated interiors hold exactly the lines strictly inside an excluded range, also at the u32 extremes. |
| `OwnedSegments.SegmentsOutsideExclusions` | crates/analysis-crap/src/lib.rs:640-666 | The segments are sorted, separated by at least a line, and hold exactly the lines of the range outside the interiors. |
| `OwnedSegments.CoverageOwnedSegments` | crates/analysis-crap/src/lib.rs:619-626 | A function owns exactly the lines of its range not strictly inside an excluded range; an invalid range owns nothing. |
| `OwnedSegments.OwnedLineCounts` | crates/analysis-crap/src/lib.rs:279-296 | The counts are the numbers of executable and of covered lines the function owns, the same lines its segments hold. |
| `AmbiguitySweep.ExpireSegments` | crates/analysis-crap/src/lib.rs:570-583 | Exactly the owners of segments that end before the line leave the active and unmarked sets. |
| `AmbiguitySweep.ActivateSegments` | crates/analysis-crap/src/lib.rs:585-606 | Exactly the owners of segments that start by the line and reach it join the active set; those not yet ambiguous join the unmarked set. |
| `AmbiguitySweep.ActiveStep` | crates/analysis-crap/src/lib.rs:570-606 | From one executable line to the next the active set turns from the owners of the one into the owners of the other, for owners with any number of disjoint segments. |
| `AmbiguitySweep.MarkAmbiguousSegments` | crates/analysis-crap/src/lib.rs:547-568 | A function is marked exactly when some executable line lies in one of its segments and in a segment of another function. |
| `CoverageMapping.CoverageSegments` | crates/analysis-crap/src/lib.rs:536-545 | The segment list is disjoint for each owner and represents line ownership exactly, which is what the sweep relies on. |
| `CoverageMapping.PeerAmbiguousFunctions` | crates/analysis-crap/src/lib.rs:499-513 | The per-file index and the sweep together compute the all-pairs definition of sharing an executable line with another function. |
| `CoverageMapping.CoverageMapper.ApplyFunction` | crates/analysis-crap/src/lib.rs:164-176 | One function gets the outcome of the classification, with coverage and score as for `ApplyAll`, and one counter changes accordingly. |
| `CoverageMapping.CoverageMapper.ApplyAll` | crates/analysis-crap/src/lib.rs:157-162 | Every record, updated in place, gets the outcome of the all-pairs classification, and the counters tally the outcomes. For a function mapped by lines the coverage times its owned executable lines is 100 times those with hits (100 exactly when all have hits, 0 exactly when none has), and (score - c) * owned^3 == c^2 * unhit^3; other scored records satisfy the same cubic with their percentage; all others have neither coverage nor score. |
| `CoverageMapping.ScoredMeans` | crates/analysis-crap/src/lib.rs:178-256 | Case by case: which functions get no coverage, zero, the region percentage or the line percentage, and the equations that coverage and score satisfy. |
| `CoverageMapping.ScoreIsFit` | crates/analysis-crap/src/lib.rs:88-94 | The score exceeds the complexity by its square times the cube of the uncovered share. |
| `CoverageMapping.CountersConserve` | crates/analysis-crap/src/lib.rs:30-52 | No function is lost or counted twice; the matched ones are exactly those that get a score. |
| `CoverageMapping.LineCountedOnce` | crates/analysis-crap/src/lib.rs:186-200 | A line that counts towards one function's percentage counts towards no other function's. |
| `CoverageMapping.CountsWithinFile` | crates/analysis-crap/src/lib.rs:258-296 | The executable counts of all line-mapped functions of a file add up to the number of distinct lines they own, never more than the file has. |
| `CoverageMapping.LinePercentBounds` | crates/analysis-crap/src/lib.rs:88-94 | Line percentages lie between 0 and 100 and the score between the complexity c and c*c + c. |
| `CoverageMapping.ScoreMonotone` | crates/analysis-crap/src/lib.rs:88-94 | More coverage never raises the score. |
| `CoverageReports.CoverageReport.InsertLine` | crates/analysis-crap/src/coverage.rs:182-192 | Line zero and unusable paths change nothing; any other line keeps the greater of its old and new count. |
| `CoverageReports.InsertAllIsMax` | crates/analysis-crap/src/coverage.rs:182-192 | Any run of insertions yields the pointwise maximum: a cell exists exactly when something reports it and holds the greatest reported count. |
| `CoverageReports.InsertOrderImmaterial` | crates/analysis-crap/src/coverage.rs:180-194 | Insertions in another order, or repeated, give the same report. |
| `CoverageReports.CoverageReport.Merge` | crates/analysis-crap/src/coverage.rs:194-209 | Merging adds exactly the lines of the other report by pointwise maximum, in whatever order its maps are walked; formats that differ become `Merged`. |
| `CoverageReports.MergeLaws` | crates/analysis-crap/src/coverage.rs:194-209 | On reports whose keys are fixed points of path normalization, with no line zero and no empty file, merging is commutative, associative and idempotent and keeps them so. |
| `CoverageReports.MergedFormatLaws` | crates/analysis-crap/src/coverage.rs:194-198 | The format of a merged report does not depend on the order or grouping of the merges. |
| `CoverageReports.InsertAllCanonical` | crates/analysis-crap/src/coverage.rs:182-192 | Reports built by insertion have that form when normalization is idempotent on the inserted paths. |
| `CoverageBudget.ParseBudget.ConsumeRecords` | crates/analysis-crap/src/coverage.rs:894-900 | Records are counted before the check; the check fails exactly above the limit. |
| `CoverageBudget.ParseBudget.StoreLine` | crates/analysis-crap/src/coverage.rs:944-953 | A line is stored exactly when the result is within the file, per-file and total limits; otherwise the report is unchanged and the error names the first limit passed. |
| `CoverageBudget.ParseBudget.InsertLine` | crates/analysis-crap/src/coverage.rs:908-962 | Budgeted insertion fails exactly when the path is too long or the unbudgeted result would not fit, and otherwise equals it; the counter stays the number of stored lines. |
| `CoverageBudget.FitsSplit` | crates/analysis-crap/src/coverage.rs:887-940 | A run fits exactly when its first part fits and the rest fits after it: a limit passed early is never made good later. |
| `CoverageBudget.ParseLcov` | crates/analysis-crap/src/coverage.rs:981-991 | A tracefile is read exactly when its text is within the report size, it has at most the limit of records and what it reports fits the limits; the result is the insertion of its entries. |
| `CoverageBudget.LcovEntriesExact` | crates/analysis-crap/src/coverage.rs:993-1027 | Exactly the data records inside an open section are reported, each for the file that opened its section. |
| `LlvmExport.CodeRegion` | crates/analysis-crap/src/coverage.rs:1867-1883 | A usable region never ends before it starts, and its file is one of the function's file names. |
| `LlvmExport.PreflightLlvm` | crates/analysis-crap/src/coverage.rs:1923-1937 | The preflight succeeds exactly when every part is within its size limit and the record and expanded-line totals are within theirs. |
| `LlvmExport.InsertionsCounted` | crates/analysis-crap/src/coverage.rs:2030-2035 | The expanded-line total is exactly the number of line insertions later made for regions, and the record total bounds all insertions. |
| `LlvmExport.RegionEntriesExact` | crates/analysis-crap/src/coverage.rs:2083-2098 | A region reports its count for exactly the lines from its start to its end. |
| `LlvmExport.DataReported` | crates/analysis-crap/src/coverage.rs:1867-1911 | The entries of a document are exactly those that a complete code region of a listed file or a counted segment reports: each line from the start to the end with the hits of the region. |
| `LlvmExport.ParseLlvm` | crates/analysis-crap/src/coverage.rs:1802-1818 | A document is accepted exactly when the preflight accepts it and the unbudgeted report fits, and then gives that report. |
| `CoberturaReport.PreflightCoberturaResolution` | crates/analysis-crap/src/coverage.rs:1152-1162 | The preflight succeeds exactly when the total of lines times aliases is within the limit. |
| `CoberturaReport.CandidatesCounted` | crates/analysis-crap/src/coverage.rs:1164-1170 | That total is exactly the number of line insertions the resolution makes. |
| `CoberturaReport.ClassesReported` | crates/analysis-crap/src/coverage.rs:1205-1222 | Exactly the lines of every class are inserted, under its own path and, unless that is absolute, under the normalized join of every source root and the path. |
| `CoberturaReport.InsertCoberturaLine` | crates/analysis-crap/src/coverage.rs:1205-1222 | An absolute class line is inserted once, a relative one also under every source root; it fails exactly when an alias is too long or the lines do not fit. |
| `CoberturaReport.BuildCoberturaReport` | crates/analysis-crap/src/coverage.rs:1139-1150 | A report is built exactly when the candidates are within the limit, all aliases are short enough and the unbudgeted report fits, and it is that report. |
| `Paths.CollapsePathComponents` | crates/analysis-crap/src/coverage.rs:361-367 | The result has no empty or `.` component and keeps `..` only as a leading run of a relative path. |
| `Paths.CollapseFixedPoints` | crates/analysis-crap/src/coverage.rs:361-383 | Collapsing is idempotent, and its fixed points are exactly the lists of that form. |
| `Paths.CollapseConcat` | crates/analysis-crap/src/coverage.rs:361-383 | Collapsing a concatenation equals collapsing it with its first part already collapsed. |
| `Paths.CollapsePreservesMeaning` | crates/analysis-crap/src/coverage.rs:369-383 | The collapsed path leads to the same place: from every directory if relative, from the root if absolute. |
| `Paths.CollapseCanonical` | crates/analysis-crap/src/coverage.rs:361-383 | Two relative paths collapse to the same list exactly when they lead to the same place from every directory; two absolute paths exactly when they lead to the same place. |
| `Capture.CapturedOutput.ExtendTail` | crates/analysis-mutate/src/command.rs:37-56 | The buffer becomes the last `limit` bytes of what it held and the chunk; the flag is set exactly when bytes are dropped. |
| `Capture.Drain` | crates/analysis-mutate/src/command.rs:136-162 | For every interleaving and chunking each buffer is the last `limit` bytes of its stream, flagged exactly when the stream is longer. |
| `Capture.TailBoth` | crates/analysis-mutate/src/command.rs:363-391 | Taking the tail of the two tails joined is taking the tail of the whole. |
| `Capture.BoundedLossy` | crates/analysis-mutate/src/command.rs:213-226 | The text is the longest suffix of the decoded bytes of at most `limit` bytes that starts at a character boundary. |
| `Capture.RenderedBounds` | crates/analysis-mutate/src/command.rs:213-226 | The text is valid UTF-8 (section 3 of RFC 3629) within the limit, at most three bytes short of it when something was dropped, and unchanged when it fits. |
| `Capture.FinishCommand` | crates/analysis-mutate/src/command.rs:363-391 | End to end the output is the rendering of the last `limit` bytes of standard output followed by standard error, flagged exactly when bytes or characters were dropped or a stream was cut off. |
| `Utf8.LossyFixed` | crates/analysis-mutate/src/command.rs:213-226 | Lossy decoding changes exactly the byte strings that are not valid. |
| `Utf8.BoundarySuffix` | crates/analysis-mutate/src/command.rs:213-226 | Valid text cut at a character boundary is valid. |
| `MutationPlan.ExecutableCount` | crates/analysis-mutate/src/executor.rs:628-638 | The count is the number of candidates the run will execute. |
| `MutationPlan.PlannedStep` | crates/analysis-mutate/src/executor.rs:272-297 | A candidate is executed exactly when no rule excludes it at the current selection count. |
| `MutationPlan.PlannedAreEligible` | crates/analysis-mutate/src/executor.rs:628-638 | The executed candidates are eligible, all of them without a limit, and never more than the limit. |
| `MutationPlan.Preflight` | crates/analysis-mutate/src/executor.rs:572-626 | A candidate list is accepted exactly when it has at most a million candidates, every path and text is within its size limit, every path resolves, identities are unique and every selected identity is among them. A path is reported exactly when it is the first thing at fault. |
| `MutationRun.Executor.RestoreSource` | crates/analysis-mutate/src/executor.rs:340-369 | A successful restore ends with the original source; a failed one ends the run. |
| `MutationRun.Executor.ExecuteApplied` | crates/analysis-mutate/src/executor.rs:371-445 | The commands run on the mutant decide the status, and no other status fits them: survived exactly when the configured validation and the test exit with 0 in time, killed when the test exits with another code, compile error when the validation does, timed out when either does, runtime error when either ends without a code or cannot be run or no test is configured. |
| `MutationRun.Executor.ExecuteCandidate` | crates/analysis-mutate/src/executor.rs:340-369 | A candidate is applied, judged and restored in that order; in every environment the source is original afterwards unless the last request broke it, by a failed restore or a fatal application, and then it is what that request left. |
| `MutationRun.Executor.ExecuteCandidates` | crates/analysis-mutate/src/executor.rs:253-270 | A completed run has one result per candidate in input order and has attempted exactly the first eligible candidates up to the limit; an aborted run has attempted a prefix of them. |
| `MutationRun.Executor.RunInSession` | crates/analysis-mutate/src/executor.rs:210-227 | In every environment at most one mutant is active at any step and the source is original on every exit except a failed restore or a fatal application, which end the run. A completed run passed the preflight, reports every candidate in order, every executed status is the one its stretch of the trace stands for, and the baseline commands are exactly those configured, all with exit code 0, run exactly when the baseline is enabled and something is executed. A failed run has a cause: a cancellation, a process-tree failure, a baseline command that did not pass, a missing test command, a refused candidate list or a broken source. |
| `MutationPlan.JudgedMeans` | crates/analysis-mutate/src/executor.rs:394-520 | The judges of validation and test agree with what exit codes and timeouts stand for: the commands of an applied mutant fit exactly one status. |
| `MutationRun.Executor.RunBaseline` | crates/analysis-mutate/src/executor.rs:299-338 | A successful baseline ran exactly the configured commands on the original source, each with exit code 0. |
| `MutationPlan.PrefixLegal` | crates/analysis-mutate/src/executor.rs:253-270 | Every intermediate state of such a run obeys the same discipline. |
| `Tokenizer.CommandTokenizer.Consume` | crates/adapter-clang/src/command.rs:99-113 | One character moves the tokenizer as the quoting automaton says, or is refused without a change. |
| `Tokenizer.TokenizeCommand` | crates/adapter-clang/src/command.rs:224-234 | The tokenizer object computes the tokenization function, with the same errors. |
| `Tokenizer.TokenizePrinted` | crates/adapter-clang/src/command.rs:98-234 | Reading back a command printed with every character escaped (and `''` for an empty argument) gives the arguments, whatever NUL-free characters they hold. |
| `Tokenizer.TokenizeJoined` | crates/adapter-clang/src/command.rs:98-234 | Two accepted commands joined by a space are accepted and give both token lists. |
| `Tokenizer.AcceptedExactly` | crates/adapter-clang/src/command.rs:98-234 | A command is accepted exactly when it has no NUL byte, its quotes and escapes are complete, every shell metacharacter is escaped or single-quoted, and it is not blank. |
| `PosixQuoting.PosixExactly` | crates/adapter-clang/src/command.rs:98-234 | An accepted command has the tokens that sections 2.2.1 to 2.2.3 of the POSIX Shell Command Language give it exactly when no newline is escaped and no backslash inside double quotes stands before a character other than `$`, a backquote, a double quote or a backslash. |
| `PosixQuoting.PosixKeepsBackslash` | crates/adapter-clang/src/command.rs:99-113 | They can differ inside double quotes: a quoted `\a` is read as `a`, where a shell keeps both characters. |
| `PosixQuoting.PosixDropsNewline` | crates/adapter-clang/src/command.rs:99-113 | They can differ at an escaped newline: `a`, backslash, newline, `b` is read with the newline, where a shell joins the lines. |
| `Sanitizer.StripOutputAndDependencyFlags` | crates/adapter-clang/src/command.rs:240-247 | The index loop computes the stripping function. |
| `Sanitizer.StripIdempotent` | crates/adapter-clang/src/command.rs:240-247 | Stripping is idempotent and leaves alone exactly the lists without a listed flag. |
| `Sanitizer.StripRemovesExactly` | crates/adapter-clang/src/command.rs:249-262 | A listed flag goes together with its value when it takes one and has one, and nothing else goes. |
| `Sanitizer.StripRemovesForwarded` | crates/adapter-clang/src/command.rs:270-287 | A forwarded output flag goes with its markers and its value, forwarded or not. |
| `Sanitizer.StripKeepsMarker` | crates/adapter-clang/src/command.rs:270-279 | A forwarding marker goes with an output flag whose value is missing, and stays in front of any other argument and at the end. |
| `Sanitizer.SourceStripsForwarded` | crates/adapter-clang/src/command.rs:270-287 | So it does with the flag tables of the program, without any assumption about them. |
| `Sanitizer.AcceptedForwardsNothing` | crates/adapter-clang/src/command.rs:426-435 | A command the sanitizer accepts holds no forwarding marker, so with the tables of the program the flags that survive stripping are those that are neither output flags nor values of them. |
| `ClangFlags.MarkerClassified` | crates/adapter-clang/src/command.rs:379-389 | In the tables of the program the forwarding marker is not an output flag, and a command that holds it is refused. |
| `Sanitizer.RemoveLanguageFlags` | crates/adapter-clang/src/command.rs:462-476 | The in-place removal computes the list without language flags. |
| `Sanitizer.WithoutLanguageRemovesExactly` | crates/adapter-clang/src/command.rs:462-476 | A language flag goes with its separate or joined value, and nothing else goes. |
| `Sanitizer.FindExplicitLanguage` | crates/adapter-clang/src/database.rs:831-856 | The loop selects the language by a fold over the flags, which `LastLanguageWins` and `LastLanguageFlag` characterize. |
| `Sanitizer.LastLanguageWins` | crates/adapter-clang/src/database.rs:831-856 | Whatever precedes it, the last language flag decides, separate or joined; a trailing `-x` without a value is unsupported. |
| `Sanitizer.LastLanguageFlag` | crates/adapter-clang/src/database.rs:831-856 | Every argument list has no language flag, ends in a bare `-x`, or splits at its last language flag. |
| `Sanitizer.ParseClangName` | crates/adapter-clang/src/database.rs:858-868 | Every language name is read back as its language. |
| `Sanitizer.RejectUnsafe` | crates/adapter-clang/src/command.rs:397-405 | An argument list is refused exactly when it holds a rejected argument, and the error names one. |
| `Sanitizer.SanitizeCompileCommand` | crates/adapter-clang/src/command.rs:426-460 | It succeeds exactly on nonempty commands without a rejected compiler argument, where the compiler arguments are those behind the first driver, or behind the first argument when there is no driver. After six fixed entries the result is a subsequence of the compiler arguments with no listed output flag, rejected argument or language flag, and its explicit language is the forced one. |
| `Sanitizer.CompilerStart` | crates/adapter-clang/src/command.rs:341-351 | The search finds the end of the first driver; without a driver it skips one argument. |
| `Sanitizer.OneOriginal` | crates/adapter-clang/src/command.rs:341-351 | The compiler arguments of a command are unique. |
| `Sanitizer.SanitizedStable` | crates/adapter-clang/src/command.rs:426-460 | Behind the six inserted entries, stripping and language removal change nothing when a result is sanitized again. |
| `Sanitizer.ResanitizedGainsTwo` | crates/adapter-clang/src/command.rs:426-460 | The whole result does change: sanitizing it again removes four of the six entries, keeps `-fsyntax-only` and `--no-default-config`, and so adds exactly these two arguments. |
| `Sanitizer.SourceResanitized` | crates/adapter-clang/src/command.rs:426-460 | With the tables of the program, whatever the languages and cache paths: a result holds no rejected argument, and sanitizing it again gains exactly the two modes. |
| `SyntaxTree.TraversedNodes` | crates/adapter-tree-sitter/src/lib.rs:2108-2121 | The stack-driven traversal lists the root and then its pruned descendants in preorder, and terminates on every tree. |
| `SyntaxTree.DocumentOrder` | crates/adapter-tree-sitter/src/lib.rs:2108-2121 | Without recursion over the tree: the listed nodes are those at exactly the positions no node on the way to which is stopped, each once, ancestors first and siblings in order. |
| `SyntaxTree.VisitDescendants` | crates/adapter-tree-sitter/src/lib.rs:2098-2106 | The visit calls its stateful decision on the same nodes in the same order as the recursive definition, whatever the decision depends on. |
| `SyntaxTree.StoppedVisits` | crates/adapter-tree-sitter/src/lib.rs:584-592 | Collecting the nodes at which a visit stops collects exactly the outermost nested functions, in document order. |
| `SyntaxTree.OwnedAndNested` | crates/adapter-tree-sitter/src/lib.rs:1248-1252 | Conservation: every node of a tree is owned by the function or lies in exactly one outermost nested function, with multiplicity. |
| `SyntaxTree.Complexity` | crates/adapter-tree-sitter/src/lib.rs:1787-1804 | The complexity is one plus the number of decision nodes and of operator children of the owned nodes below the root, saturating at u32, whatever order the stack gives them. |
| `SyntaxTree.DecisionsCounted` | crates/adapter-tree-sitter/src/lib.rs:1787-1822 | The summed increments are the counts of decision nodes and of operators among their children; in Rust later match arms, guarded patterns, `let` with an alternative and `?` are decisions. |
| `SyntaxTree.NestingDepth` | crates/adapter-tree-sitter/src/lib.rs:1683-1702 | The depth is the greatest number of nesting nodes on any chain of owned nodes: no chain exceeds it and one attains it, saturating at u32. |
| `CfgPredicates.RequiresTestSound` | crates/adapter-rust/src/complexity.rs:425-442 | A predicate found to require a test build evaluates to false in every other build. |
| `CfgPredicates.RequiresTestExact` | crates/adapter-rust/src/complexity.rs:425-442 | Exactly when the analysis is right about a predicate: where no atom occurs both under an even and under an odd number of negations, it is right if and only if it finds the predicate or the form of the predicate lets it be true outside tests; a predicate of neither kind is always missed. |
| `CfgPredicates.RequiresTestRightByChoice` | crates/adapter-rust/src/complexity.rs:425-442 | For every predicate without any restriction: the analysis is right if and only if it finds the predicate or some choice among the finitely many atoms in it makes it true outside tests. |
| `CfgPredicates.RequiresTestExactPositive` | crates/adapter-rust/src/complexity.rs:425-442 | On negation-free, well-formed predicates it finds exactly those that are false in every non-test build. |
| `CfgPredicates.RequiresTestMissesNegation` | crates/adapter-rust/src/complexity.rs:425-432 | Under negation it does not: `not(not(test))` is true exactly in test builds and is not found. |
| `CfgPredicates.RequiresTestMissesFalse` | crates/adapter-rust/src/complexity.rs:425-442 | Nor does it find what is false in every build: `any()`, unknown lists, and arguments that do not parse. |
| `CfgPredicates.RequiredTestInactive` | crates/adapter-rust/src/complexity.rs:444-456 | Attributes the analysis looks for are all inactive outside tests if and only if one of them is a `cfg` found to require tests or `test` without arguments; `bench`, and `test` with arguments, stay active. |
| `CfgPredicates.RightlyFoundInactive` | crates/adapter-rust/src/complexity.rs:444-456 | Whatever stands beside it, one such attribute makes the whole list inactive in every other build. |
| `CfgPredicates.BenchStaysActive` | crates/adapter-rust/src/complexity.rs:444-456 | An input where the analysis is wrong: `bench` alone is found and active in every build. |
| `CfgPredicates.TargetIndependent` | crates/adapter-rust/src/scope.rs:266-273 | A predicate without a target dimension evaluates the same in any two contexts with the same test flag. |
| `CfgPredicates.ActivityTargetIndependent` | crates/adapter-rust/src/scope.rs:425-457 | An attribute that consults no target dimension is active or not by the test flag alone. |
| `CfgPredicates.GateMissesNested` | crates/adapter-rust/src/scope.rs:275-297 | An attribute consults a target dimension exactly when the gate finds it or a `cfg_attr` nested in a `cfg_attr` consults one. |
| `CfgPredicates.UngatedTargetIndependent` | crates/adapter-rust/src/scope.rs:275-297 | Ungated attributes without such nesting are active or not by the test flag alone. |
| `CfgPredicates.UngatedNestedDepends` | crates/adapter-rust/src/scope.rs:275-297 | With such nesting they need not be: `cfg_attr(test, cfg_attr(unix, cfg(not(test))))` is not gated although its activity depends on the target. |
| `CfgPredicates.Merged` | crates/adapter-rust/src/scope.rs:119-129 | The merged context has every variant of its parts, nothing else, and each once. |
| `CfgPredicates.MergedActive` | crates/adapter-rust/src/scope.rs:97-113 | Code is active in a merged context exactly when it is active in one of the parts, for each test flag too. |

## Left out

- FunctionClones.FindFunctionGroups: the eligibility filter, the final output order and the last containment filter of function groups are not modelled; components are stated before them, because every function starts at token 0.
- Dice.DiceSimilarity: similarity is a real quotient, not an IEEE one, and list lengths are required to fit in u32, where the code saturates.
- Evidence.CloneGroupIdIffSameOccurrences: the hash applied to the identity text is not modelled.
- ExactDuplicates.FindDuplicatesWithBudget: path canonicalization is not modelled (output order by path is order by file position), and identifiers of groups are left out.
- CoverageReports.CoverageReport.Merge: the per-function records of a report are not modelled.
- LlvmExport.ParseLlvm: the grouping of regions into per-function coverage is not modelled, and JSON values are taken as decoded.
- CoverageBudget.ParseLcov: splitting the text into records and reading their fields is not modelled.
- CoverageBudget.ParseBudget.ConsumeRecords: overflow of the machine-word counter is not modelled; its limit is far below it.
- CoberturaReport.BuildCoberturaReport: the XML scanner, its own limits and the reading of classes and sources from events are not modelled.
- CoverageMapping.PeerAmbiguousFunctions: finding the line map of a function's file (suffix matching and canonical paths) is an input.
- CoverageMapping.CoverageMapper.ApplyFunction: the percentage computed from the regions assigned to a function is an input.
- CoverageMapping.CoverageMapper.ApplyAll: which regions belong to a function is an input; counters are unbounded.
- Capture.Drain: the reader threads, pipe errors and grace periods are not modelled; chunks arrive in any interleaving.
- MutationPlan.Preflight: how a path is resolved and checked for containment is an input, and field sizes are given in bytes.
- MutationRun.Executor.RunInSession: applying an edit, running a command, restoring and cancellation are answers of an environment; what a fatal application or a failed restore leaves behind is such an answer, so that the recovery attempted then, and in a later run, is not modelled; session locks, timeouts, durations and diagnostics are not modelled.
- PosixQuoting.PosixExactly: the shell's operators and expansions are not modelled; where they are not escaped or quoted both sides refuse them.
- Sanitizer.SanitizeCompileCommand: the scratch directory is a given path, and recognizing compiler drivers is a parameter.
- SyntaxTree.Complexity: a node carries its trimmed text and what the measures ask of the parser; per-language kind tables are a parameter.
- Paths.CollapsePathComponents: trimming, separators, prefixes and drive letters of whole paths are not modelled; components are.
- The list mode of mutation testing and the selection of mutants from source.
- Coverage.py and Istanbul documents: they insert lines through the same budget without a preflight of their own.
- Parsing: token lists, syntax trees, attribute metas and JSON values are given.
- Discovery, configuration, process and file-system code, and rendering of reports.
- The module walk of the Rust adapter and per-language visibility, naming and entry-point tables.
