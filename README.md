# DatasetISW2 dataset pipeline, modelled in Dafny

DatasetISW2 builds a defect-prediction dataset for Apache BookKeeper. Its steps are:

1. Read the project's Jira releases and fixed bug tickets.
2. Keep the Git tags that match a Jira release, and sort them by version number.
3. Pick out the commits that fix a bug.
4. For each release, measure every Java method of the source tree.
5. Add to each method the number of bug-fix changes it received ("history") and the lines those fixes moved inside it ("churn").
6. Keep the oldest third of the releases.
7. Write one CSV record per (release, method), with a Buggy label.
8. Remove the records that repeat an older release's record on every column but `Version`.

This project models that core, one module per source class:

| module | models |
|---|---|
| `Pipeline` | `Main`: tag selection, the bug-fix alternation, the path filter and the source walk, history/churn injection, the 33% cut and the Buggy label |
| `BuggyMethodExtractor` | `metrics.BuggyMethodExtractor`: changed methods per fix commit, history and churn |
| `FeatureExtractor` | `metrics.FeatureExtractor`: the per-method metrics and the `ComplexityVisitor` class |
| `JiraInjection` | `fetcher.JiraInjection`: a class holding the releases; the paged ticket fetch |
| `CsvGenerator` | `utils.CsvGenerator`: the header and the records |
| `CsvPreprocessor` | `utils.CsvPreprocessor`: the oldest-row deduplication |
| `Versions` | both copies of `compareVersion` and the order they define |

Some support modules are shared by the others:

- `Strings`: the `java.lang.String` operations used, over `seq<char>`.
- `Accumulate`: `Map.merge` with `Integer::sum`.
- `Sorting`: a stable insertion sort standing in for `List.sort`.
- `SeqFacts`: sequence lemmas.
- `Wrappers`: `Option` and `Result`.

Some steps are loops that mutate maps or lists. Each of them is a `method` whose `ensures` ties its result to a specification function, and the properties are proved about those functions. Java `HashMap`s are Dafny `map`s. Iteration over a `HashMap` is modelled as iteration in an arbitrary order, chosen with `:|`. A `LinkedHashMap` is a `map` together with its key order, a `seq` in which a key put again keeps its first place. What Java computes with JavaParser, PMD, JGit or HTTP enters the model as a value:

- A parsed method is its declaration string, its printed text, a statement tree and its parameter count.
- A diff entry is its change type, its old path, the methods before and after, and its edit list.
- A Jira search page is its `total` and its issues.

## Model

| member | source | states |
|---|---|---|
| Pipeline.StripV | src/main/java/Main.java:68 | a leading `v` is dropped, and nothing else changes |
| Pipeline.ValidTags | src/main/java/Main.java:70-75 | a tag is kept iff it is a Git tag whose prefix-stripped name is some Jira release's name without its `v`; the result is no longer than the Git tags |
| Pipeline.NormalizedNames | src/main/java/Main.java:66-69 | the set holds exactly the Jira names with their leading `v` stripped |
| Pipeline.ReleasesMeaning | src/main/java/Main.java:70-80 | the release list is never empty; it is sorted by version; it is `["HEAD"]` when no tag matches, and otherwise a permutation of the matching tags, with both directions of membership |
| Pipeline.SelectReleases | src/main/java/Main.java:66-80 | the loops and the sort compute the release list given by `Releases` |
| Pipeline.KeepCount | src/main/java/Main.java:158 | `max(1, floor(n * 0.33))`: between 1 and n; when above 1, it is the largest r with r*100 <= 33n |
| Pipeline.KeptFeatures | src/main/java/Main.java:159-162 | the kept map has exactly the first keepCount releases as keys, each with its own feature map |
| Pipeline.KeepReleases | src/main/java/Main.java:159-162 | the `subList` loop builds `KeptFeatures`, and the `LinkedHashMap`'s key order `KeptOrder` |
| Pipeline.InsertionOrder | src/main/java/Main.java:161-162 | the key order of a `LinkedHashMap` filled by `put`: no key twice, and exactly the keys put |
| Pipeline.InsertionOrderOfDistinct | src/main/java/Main.java:161-162 | tags that are all different are held in the order they were put |
| Pipeline.InsertionOrderSorted | src/main/java/Main.java:161-162 | putting a sorted tag list gives a sorted key order |
| Pipeline.KeptAreOldest | src/main/java/Main.java:157-162 | on a version-sorted list, every kept release is no newer than every dropped one |
| Pipeline.Signature | src/main/java/Main.java:150 | `split("#", 2)[1]`: the key is its path, a `#`, then the signature |
| Pipeline.InjectionMeaning | src/main/java/Main.java:148-155 | releases and keys are unchanged; each method's history and churn are the counts of its bare signature, 0 when absent; every other field is unchanged |
| Pipeline.SharedCounts | src/main/java/Main.java:150-153 | two methods with the same signature, in any files or releases, get the same history and churn |
| Pipeline.InjectRelease | src/main/java/Main.java:149-154 | the inner injection loop yields `InjectedRelease` |
| Pipeline.InjectAll | src/main/java/Main.java:148-155 | the nested injection loops yield `InjectedAll` |
| Pipeline.IsExtractable | src/main/java/Main.java:193-204 | the filter chain (ends with `.java`, contains `/src/main/java/`, then backslashes made `/`, not ending with `Test.java`, no excluded segment) decides `Extractable` |
| Pipeline.ExcludedNotExtractable | src/main/java/Main.java:186-202 | a path holding any of the twelve excluded segments is never extracted |
| Pipeline.TestNotExtractable | src/main/java/Main.java:199 | a path ending in `Test.java` is never extracted |
| Pipeline.Contribution | src/main/java/Main.java:205-211 | a file that is filtered out or fails to parse contributes nothing |
| Pipeline.WalkAndExtract | src/main/java/Main.java:183-213 | the walk's `putAll` sequence builds `WalkMap`, the union of the contributions with the later file winning |
| Pipeline.WalkKeys | src/main/java/Main.java:205-211 | a key is in the release's map iff some walked file contributes it |
| Pipeline.WalkLastWins | src/main/java/Main.java:207 | a key's features are those of the last file contributing that key |
| Pipeline.SkippedFile | src/main/java/Main.java:208-210 | a file that is filtered out or fails to parse changes nothing |
| Pipeline.UnionKeys | src/main/java/Main.java:207 | the keys of a `putAll` sequence are the union of the maps' keys |
| Pipeline.UnionLast | src/main/java/Main.java:207 | each key's value in a `putAll` sequence comes from the last map holding that key |
| Pipeline.UnionSkip | src/main/java/Main.java:207 | an empty `putAll` changes nothing |
| Pipeline.FixedBugKeys | src/main/java/Main.java:294-298 | a key is listed iff some ticket is a Bug, Closed or Resolved, Fixed (ignoring case, null never matching), with that key |
| Pipeline.Quote | src/main/java/Main.java:300 | `Pattern.quote` yields `\Q` ... `\E` |
| Pipeline.QuoteVerbatim | src/main/java/Main.java:300 | a key without `\E` is quoted verbatim |
| Pipeline.QuoteAddsNothing | src/main/java/Main.java:300 | quoting adds no character other than `\`, `Q` and `E` |
| Pipeline.BuildBugAlternation | src/main/java/Main.java:292-303 | the `StringBuilder` loop yields `Join("\|", quoted ticket keys)` |
| Pipeline.AlternationPieces | src/main/java/Main.java:299-300 | for keys without `\|`, the text is empty iff no ticket qualifies, and otherwise it splits at `\|` into exactly the quoted keys, in ticket order |
| Pipeline.BuggySetAsWritten | src/main/java/Main.java:117-119 | the buggy set holds exactly the signatures some fix commit changed |
| Pipeline.NeverBuggyAsWritten | src/main/java/utils/CsvGenerator.java:58 | as written, every record's Buggy cell is "No" |
| Pipeline.ChangedMethodNotBuggy | src/main/java/utils/CsvGenerator.java:58 | a method a fix changed is in the set, yet its record says "No" |
| Pipeline.BuggyLabel | src/main/java/utils/CsvGenerator.java:58 | with the corrected set, a record says "Yes" iff its signature was changed by a bug fix |
| Pipeline.GenerateDataset | src/main/java/Main.java:157-166 | the cut and `generateCsv` give the header, then one record per (kept release, method), each exactly once, labelled with the corrected set; the records come release by release in `keptTags` order, so when the release list is sorted the Version column never goes down |
| Pipeline.RawCsvOldestFirst | src/main/java/Main.java:157-166 | on a version-sorted release list, every record's release is no newer than any later record's |
| Pipeline.ReleasesNonDecreasing | src/main/java/utils/CsvGenerator.java:49-51 | records printed release by release along a sorted key order have non-decreasing releases |
| BuggyMethodExtractor.BySignatureKeys | src/main/java/metrics/BuggyMethodExtractor.java:146-152 | `parseMethods` has exactly the declared signatures as keys |
| BuggyMethodExtractor.BySignatureLastWins | src/main/java/metrics/BuggyMethodExtractor.java:148-150 | each signature maps to its last declaration |
| BuggyMethodExtractor.ParseMethods | src/main/java/metrics/BuggyMethodExtractor.java:146-152 | the `forEach` builds `BySignature` |
| BuggyMethodExtractor.ChangedKeysOf | src/main/java/metrics/BuggyMethodExtractor.java:135-143 | lists, once each, every signature before the fix that also exists after it with different text |
| BuggyMethodExtractor.ChangedInSource | src/main/java/metrics/BuggyMethodExtractor.java:130-144 | the changed list has the same elements as `ChangedSet` |
| BuggyMethodExtractor.ChangedSetMeaning | src/main/java/metrics/BuggyMethodExtractor.java:136-142 | a signature is changed iff its last declarations before and after both exist and differ in text |
| BuggyMethodExtractor.CommitMethods | src/main/java/metrics/BuggyMethodExtractor.java:48-56 | a commit's list holds, with multiplicity, the changed methods of its `MODIFY` entries on `.java` paths |
| BuggyMethodExtractor.ChangesByIdKeys | src/main/java/metrics/BuggyMethodExtractor.java:39-58 | the result has exactly the commits with a parent as keys |
| BuggyMethodExtractor.ChangesByIdOfCommit | src/main/java/metrics/BuggyMethodExtractor.java:40-57 | each commit with a parent maps to its own changed methods |
| BuggyMethodExtractor.ExtractChangedMethods | src/main/java/metrics/BuggyMethodExtractor.java:32-61 | the loop yields `ChangesById`, key for key and with element multiplicities |
| BuggyMethodExtractor.MergeOnes | src/main/java/metrics/BuggyMethodExtractor.java:69-71 | `merge(sig, 1, sum)` over a list adds each signature's occurrences to its count |
| BuggyMethodExtractor.CalculateMethodHistories | src/main/java/metrics/BuggyMethodExtractor.java:66-74 | each signature's history is its number of occurrences over all commits' lists |
| BuggyMethodExtractor.HistoriesOfDistinctCommits | src/main/java/metrics/BuggyMethodExtractor.java:66-74 | for commits with distinct ids, that is the total change count over every commit with a parent |
| BuggyMethodExtractor.TotalChangesGrows | src/main/java/metrics/BuggyMethodExtractor.java:66-74 | more fix commits never lower a history |
| BuggyMethodExtractor.CreditDecl | src/main/java/metrics/BuggyMethodExtractor.java:112-117 | a method whose range passes the overlap test gets the edit's whole weight merged in; a method without a range, or outside it, adds nothing |
| BuggyMethodExtractor.CreditEdit | src/main/java/metrics/BuggyMethodExtractor.java:99-120 | one edit credits every overlapping method of the post-fix file |
| BuggyMethodExtractor.CreditEntry | src/main/java/metrics/BuggyMethodExtractor.java:95-122 | the edits of one diff entry credit the post-fix methods in turn |
| BuggyMethodExtractor.CreditCommit | src/main/java/metrics/BuggyMethodExtractor.java:86-123 | one commit credits for each of its diff entries; an entry that is not a `MODIFY` of a `.java` path credits nothing |
| BuggyMethodExtractor.CalculateMethodChurn | src/main/java/metrics/BuggyMethodExtractor.java:79-126 | the churn map is the merge of all credits of all commits with a parent |
| BuggyMethodExtractor.ChurnMeaning | src/main/java/metrics/BuggyMethodExtractor.java:79-126 | churn has exactly the credited signatures as keys, each with the sum of its credits |
| BuggyMethodExtractor.EditCreditsMeaning | src/main/java/metrics/BuggyMethodExtractor.java:110-117 | every credit of an edit equals its weight, and the credited signatures are exactly the overlapping methods |
| BuggyMethodExtractor.WeightNonNegative | src/main/java/metrics/BuggyMethodExtractor.java:100-102 | the weight of a well-formed edit, lines added plus lines deleted, is not negative |
| BuggyMethodExtractor.OverlapMeaning | src/main/java/metrics/BuggyMethodExtractor.java:113 | an edit adding lines overlaps a method iff an added line falls in its range; a pure deletion overlaps it iff the deletion point is in `[begin, end)` |
| BuggyMethodExtractor.ChurnCreditsNonNegative | src/main/java/metrics/BuggyMethodExtractor.java:100-102 | with well-formed edits, every churn credit is non-negative |
| BuggyMethodExtractor.ChurnGrows | src/main/java/metrics/BuggyMethodExtractor.java:79-126 | more fix commits never drop a signature from churn nor lower its value |
| Accumulate.Merge | src/main/java/metrics/BuggyMethodExtractor.java:115 | `merge(k, delta, sum)` adds k to the keys and delta to k's total, an absent total reading as 0; every other key keeps its total |
| Accumulate.MergeAllSums | src/main/java/metrics/BuggyMethodExtractor.java:115 | merging credits into an empty map gives the credited keys, each with the sum of its deltas |
| Accumulate.MergeAllGrows | src/main/java/metrics/BuggyMethodExtractor.java:70 | merging non-negative deltas never removes a key nor lowers a total |
| FeatureExtractor.ComplexityVisitor.constructor | src/main/java/metrics/FeatureExtractor.java:144 | both counters start at 0 |
| FeatureExtractor.ComplexityVisitor.Visit | src/main/java/metrics/FeatureExtractor.java:146-171 | the visit adds the subtree's decision points (`if`, `for`, `while`, `do`, labelled `case`) and raises `maxDepth` to the deepest nesting reached from depth d |
| FeatureExtractor.DeepestIsHeight | src/main/java/metrics/FeatureExtractor.java:146-171 | from depth d, the deepest depth reached is d plus the nesting height, or 0 without nesting |
| FeatureExtractor.HeightAtMostNesting | src/main/java/metrics/FeatureExtractor.java:146-171 | the nesting depth never exceeds the number of nesting statements |
| FeatureExtractor.HeightZero | src/main/java/metrics/FeatureExtractor.java:146-171 | the nesting depth is 0 iff the method has no nesting statement |
| FeatureExtractor.LocZeroIffBlank | src/main/java/metrics/FeatureExtractor.java:95 | `lines().filter(!isBlank).count()` is 0 iff the whole text is blank |
| FeatureExtractor.LocPrependLine | src/main/java/metrics/FeatureExtractor.java:95 | a line followed by `\n` adds 1 to LOC unless it is blank |
| FeatureExtractor.Features | src/main/java/metrics/FeatureExtractor.java:91-132 | every field as the method computes it: LOC, cyclomatic = decisions + 1, cognitive = decisions, nesting height, parameters, smells, returns, tries, catches, density = floor(smells*100/LOC) or 0, manyCatches iff catches > 2, assignments, calls, history and churn 0, gt100 iff LOC > 100 |
| FeatureExtractor.MeasureMethod | src/main/java/metrics/FeatureExtractor.java:91-132 | the statement sequence yields `Features` |
| FeatureExtractor.KeyInjective | src/main/java/metrics/FeatureExtractor.java:138 | within one file, two keys are equal iff their signatures are |
| FeatureExtractor.ExtractFromFile | src/main/java/metrics/FeatureExtractor.java:89-140 | the loop over declarations yields `FileFeatures` |
| FeatureExtractor.FileFeaturesKeys | src/main/java/metrics/FeatureExtractor.java:135-138 | a file's keys are exactly `relPath#signature` of its declarations |
| FeatureExtractor.FileFeaturesLastWins | src/main/java/metrics/FeatureExtractor.java:138 | a signature declared more than once keeps the features of its last declaration |
| JiraInjection.JiraInjection.constructor | src/main/java/fetcher/JiraInjection.java:29-34 | the release list starts out null |
| JiraInjection.JiraInjection.InjectReleases | src/main/java/fetcher/JiraInjection.java:37-53 | `releases` becomes the versions sorted by release date, numbered 1, 2, ... in that order |
| JiraInjection.ReleaseDateLeTotal | src/main/java/fetcher/JiraInjection.java:48 | ordering by release date is a total preorder |
| JiraInjection.Numbered | src/main/java/fetcher/JiraInjection.java:49-51 | the i-th release gets id i+1, and its name and date are kept |
| JiraInjection.InjectedReleases | src/main/java/fetcher/JiraInjection.java:47-51 | the stored releases are a permutation of the fetched ones, date-sorted, numbered from 1 |
| JiraInjection.FirstOnOrAfter | src/main/java/fetcher/JiraInjection.java:117-120 | the first release not before d, or none when every release is before d |
| JiraInjection.ReleaseAfterOrEqualDate | src/main/java/fetcher/JiraInjection.java:115-121 | null without releases; otherwise null iff every release is before d, else a release not before d |
| JiraInjection.EarliestOnOrAfter | src/main/java/fetcher/JiraInjection.java:115-121 | on date-sorted releases, the one found is the earliest not before d, and exactly the releases before it precede d |
| JiraInjection.Tickets | src/main/java/fetcher/JiraInjection.java:89-106 | one ticket per issue, in order, with its key, dates, versions and the releases following its two dates |
| JiraInjection.AllIssuesHas | src/main/java/fetcher/JiraInjection.java:71-109 | every issue of every page is among the collected issues |
| JiraInjection.FetchedTickets | src/main/java/fetcher/JiraInjection.java:60-113 | the result is sorted by resolution date, is a permutation of the tickets, and holds the ticket of every issue of every page |
| JiraInjection.JiraInjection.FetchFixedBugs | src/main/java/fetcher/JiraInjection.java:60-113 | the paging loop and the sort yield the tickets of all pages' issues, sorted by resolution date |
| CsvGenerator.Lead | src/main/java/utils/CsvGenerator.java:52-55 | the first cells are the version, the file name without `/`, and the text after the key's first `#` |
| CsvGenerator.BuggyCell | src/main/java/utils/CsvGenerator.java:58 | "Yes" iff buggy, otherwise "No" |
| CsvGenerator.MakeRow | src/main/java/utils/CsvGenerator.java:60-81 | twenty cells: the lead, the sixteen metrics in header order, and "Yes" iff `version#key` is in the buggy set |
| CsvGenerator.RowOfKey | src/main/java/utils/CsvGenerator.java:52-55 | for a path without `#`, the record shows that path's file name and the whole signature, even when the signature holds `#` |
| CsvGenerator.PrintOne | src/main/java/utils/CsvGenerator.java:51-81 | one inner turn prints one more unprinted entry of the current release, keeping the records release by release |
| CsvGenerator.PrintVersion | src/main/java/utils/CsvGenerator.java:49-82 | one outer turn prints every entry of the next release of the key order, after those of the earlier releases |
| CsvGenerator.PrintedComplete | src/main/java/utils/CsvGenerator.java:49-83 | printing every entry once gives the header, as many records as entries, a record for every entry and no other record |
| CsvGenerator.GenerateCsv | src/main/java/utils/CsvGenerator.java:19-85 | the header, then one record per (release, key) of the maps, each exactly once; the records of a release come together, the releases in the outer map's key order; the returned table has a record for every entry and no other |
| CsvPreprocessor.IndexOfName | src/main/java/utils/CsvPreprocessor.java:27 | `indexOf`: none iff the name is absent; otherwise its first position |
| CsvPreprocessor.BuildKey | src/main/java/utils/CsvPreprocessor.java:37-42 | the loop builds each non-Version cell, trimmed and followed by `\|` |
| CsvPreprocessor.PiecesOfJoined | src/main/java/utils/CsvPreprocessor.java:37-42 | when no cell holds `\|`, splitting the key at `\|` gives back the cells plus a final empty piece |
| CsvPreprocessor.JoinedInjective | src/main/java/utils/CsvPreprocessor.java:37-42 | when no cell holds `\|`, two keys are equal iff their trimmed cells are |
| CsvPreprocessor.BarAmbiguity | src/main/java/utils/CsvPreprocessor.java:40 | cells holding `\|` can give different rows the same key |
| CsvPreprocessor.HeadCompareIsOrder | src/main/java/utils/CsvPreprocessor.java:75-93 | the preprocessor's `compareVersion` is a reflexive, antisymmetric, transitive three-way comparison |
| CsvPreprocessor.DedupCoherent | src/main/java/utils/CsvPreprocessor.java:33-54 | the insertion order lists every kept key exactly once |
| CsvPreprocessor.KeptFrom | src/main/java/utils/CsvPreprocessor.java:45-53 | each kept row is an input row of that group |
| CsvPreprocessor.DedupKeys | src/main/java/utils/CsvPreprocessor.java:45-53 | the kept keys are exactly the groups of the input |
| CsvPreprocessor.DedupOldest | src/main/java/utils/CsvPreprocessor.java:45-53 | under any order, the kept row is no newer than any row of its group |
| CsvPreprocessor.DedupFirstOldest | src/main/java/utils/CsvPreprocessor.java:48-52 | the kept row is the first of its group's oldest rows, since only a strictly older row replaces it |
| CsvPreprocessor.DedupFirstSeen | src/main/java/utils/CsvPreprocessor.java:33-51 | for any input, the insertion order lists the groups by the position of their first row: a key put again keeps its place |
| CsvPreprocessor.DistinctGroupsKept | src/main/java/utils/CsvPreprocessor.java:33-54 | rows with distinct keys are all kept, in input order |
| CsvPreprocessor.KeptOldestFirst | src/main/java/utils/CsvPreprocessor.java:33-54 | with `HEAD` older than any release, each group keeps its first oldest row |
| CsvPreprocessor.OutputKeys | src/main/java/utils/CsvPreprocessor.java:61-65 | the output has one row per group, with that group's kept version, and the groups come in the order of their first rows in the input |
| CsvPreprocessor.OutputIdempotent | src/main/java/utils/CsvPreprocessor.java:21-68 | deduplicating the output again changes nothing |
| CsvPreprocessor.AddRecord | src/main/java/utils/CsvPreprocessor.java:45-53 | one loop turn does the `put`/`replace` step that `Dedup` describes: a new key is appended, a known key is replaced only by a strictly older version |
| CsvPreprocessor.KeepOldest | src/main/java/utils/CsvPreprocessor.java:33-54 | the `LinkedHashMap` loop mirrors `Dedup` with the preprocessor's comparison |
| CsvPreprocessor.WriteRows | src/main/java/utils/CsvPreprocessor.java:57-66 | the header, then each kept record cut to the header's columns, in map order |
| CsvPreprocessor.RemoveDuplicateRows | src/main/java/utils/CsvPreprocessor.java:21-68 | fails iff there is no `Version` column; otherwise yields the header followed by `Output` |
| Versions.StripPrefix | src/main/java/Main.java:306 | `replaceFirst("^(?:v\|release-)", "")`: drops a leading `v`, or else a leading `release-` |
| Versions.CompareParts | src/main/java/Main.java:308-314 | the index loop returns the comparison of the padded components |
| Versions.CompareNumeric | src/main/java/Main.java:305-315 | returns -1, 0 or 1 and agrees with `NumericCompare` |
| Versions.CompareWithHead | src/main/java/utils/CsvPreprocessor.java:75-93 | agrees with `HeadCompare`; `HEAD` is below every other version and equal to itself |
| Versions.CompareMeaning | src/main/java/Main.java:308-314 | the result is -1, 0 or 1; it is 0 iff the zero-padded components agree; it is negative iff the first difference is smaller on the left |
| Versions.NumericCompareReflexive | src/main/java/Main.java:305-315 | every version compares equal to itself |
| Versions.NumericCompareAntisymmetric | src/main/java/Main.java:305-315 | swapping the arguments negates the result |
| Versions.NumericCompareTransitive | src/main/java/Main.java:305-315 | `<=` and `<` chain |
| Versions.VersionLeTotalPreorder | src/main/java/Main.java:76 | the sort's comparison is a total preorder, so the sort is well defined |
| Versions.HeadCompareReflexive | src/main/java/utils/CsvPreprocessor.java:75-93 | every version compares equal to itself |
| Versions.HeadCompareAntisymmetric | src/main/java/utils/CsvPreprocessor.java:75-93 | swapping the arguments negates the result |
| Versions.HeadCompareTransitive | src/main/java/utils/CsvPreprocessor.java:75-93 | `<=` and `<` chain |
| Versions.HeadIsMinimum | src/main/java/utils/CsvPreprocessor.java:77-79 | `HEAD` is below every other version and equal to itself |
| Versions.TrailingZerosEqual | src/main/java/utils/CsvPreprocessor.java:86-92 | trailing zero components do not matter (`4.2` equals `4.2.0`) |
| Versions.PrefixIgnored | src/main/java/utils/CsvPreprocessor.java:82-83 | `release-4.2` and `v4.2` compare equal to `4.2` |
| Sorting.SortBySorted | src/main/java/Main.java:76 | under a total preorder the sort yields an ordered permutation |
| Strings.PiecesOfJoin | src/main/java/Main.java:299 | splitting a join at its one-character separator gives back the parts when no part holds it |

## Left out

- Network and file I/O are supplied as values: the GitHub tag API (which returns only the first 100 tags), archive download and unzip, the Jira REST calls and JSON binding, the Git log and blob reads, and the CSV reading and writing.
- CsvGenerator.GenerateCsv leaves open the order of the records within one release: it is the iteration order of that release's `HashMap`, which Java does not fix. The order of the releases is stated.
- JavaParser, PMD and JGit's diff are supplied as their results: declarations with text, statement tree and parameter count; the PMD violation count; diff entries with their edits. CSV quoting is not modelled.
- What `Pattern.compile(...).matcher(msg).find()` accepts is not modelled (Main.java:84-90). The model stops at the alternation text. An empty alternation, when no ticket qualifies, would match every commit message; this is recorded by `AlternationPieces` but not carried further.
- The per-release loop of Main.java:96-109 (a download for each tag, or the working tree for `HEAD`, then `walkAndExtract`) is an input map from release to features. `Files.walk`: the paths, their order and `relativize` are inputs.
- The churn cache file (Main.java:127-145) is left out: the model always computes the churn. Console and error logging are left out.
- `LocalDateAdapter` and `InstantAdapter` (JSON date adapters) are I/O and are not part of this model. Dates are day numbers.
- Pipeline.KeepCount: the `0.33` double is modelled as the exact ratio 33/100, so `floor(n*0.33)` is given for every n rather than for the double's rounding. All Java `int` arithmetic is unbounded, with no 32-bit overflow.
- Pipeline.SelectReleases requires every matching tag to parse. Java's sort would throw on an unparsable tag only when it compares one, so a single unparsable tag, for example, sorts without error in the source.
- Versions.CompareNumeric and Versions.CompareWithHead require parsable parts, where `Integer.parseInt` throws. The source parses only the parts up to the first difference, so an unparsable later part does not throw there. Parts beyond the `int` range are read as unbounded integers.
- Pipeline.InjectRelease and Pipeline.InjectAll require a `#` in every key: `split("#", 2)[1]` throws otherwise. Every key that `extractFromFile` builds has one.
- CsvPreprocessor.RemoveDuplicateRows requires distinct header names, records at least as wide as the header, and a parsable Version cell in every record. The source needs less: `compareVersion` runs only when a key repeats (CsvPreprocessor.java:45-50), and it parses parts only up to the first difference (CsvPreprocessor.java:87-90). So an unparsable Version cell in a one-row group, or after a part that already differs, does not throw in the source.
- CsvPreprocessor.BarAmbiguity: the group key is ambiguous when cells hold `|`, so two different rows can be merged. This is stated, not corrected.
- JiraInjection.JiraInjection.FetchFixedBugs requires the pages to be exactly those the `do/while` asks for (`Paged`). A server whose `total` never stops the loop is not modelled.
- PMD's and JavaParser's exceptions inside `extractFromFile` are modelled only as a file that contributes nothing (Main.java:208-210).
- BuggyMethodExtractor.CalculateMethodChurn treats the caught blob read at BuggyMethodExtractor.java:104-107 as succeeding. The same read at lines 52-53 is not caught, so a failure would already have aborted `extractChangedMethods`.
- Sorting.SortBy is a stable insertion sort, as `List.sort` and `Collections.sort` are stable, but stability itself is not proved: only order and permutation are.
- Case-insensitive comparison and whitespace (`equalsIgnoreCase`, `isBlank`, `trim`) are modelled on the ASCII range only. Null issue types, statuses and resolutions are `None`. Null dates, null keys and null fields are not modelled.
- Pipeline.ExcludedNotExtractable is stated for paths without `\`. With `\`, the replacement can create an excluded segment (`IsExtractable` itself follows the source for any path).
- History counts occurrences. The Javadoc at BuggyMethodExtractor.java:63-65 says it counts how many times each method was touched by a bug fix, and `calculateMethodHistories` adds 1 per occurrence in a commit's list. A method signature changed in two files of one commit counts twice, because signatures carry no path. The model follows the code: `HistoriesOfDistinctCommits` states the occurrence count.
- The buggy set is global across all fixes. No fix is confined to a release, as in the code.

## Findings

| source | as written | input that shows it | evidently intended | confidence | as-written member | corrected member |
|---|---|---|---|---|---|---|
| src/main/java/Main.java:117-119 | `buggyMethods` collects bare signatures. `CsvGenerator.java:58` looks up `version#path#signature`, which always holds `#`, so no record can be "Yes". | release `4.0.0`, path `src/A.java`, a fix commit `c1` changing `void close()`: the set is `{"void close()"}`, the lookup is `4.0.0#src/A.java#void close()`, and the cell is "No" | a record is "Yes" iff a bug fix changed its method's signature | not executed | Pipeline.NeverBuggyAsWritten, Pipeline.ChangedMethodNotBuggy | Pipeline.BuggyTags, Pipeline.BuggyLabel (used by Pipeline.GenerateDataset) |
