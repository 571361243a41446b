# i18n-keys-io change extraction, modelled in Dafny

`ChangesService` finds the translatable resource-bundle entries that were
added or changed in a Git repository since a given date, and exports them.
It works in four stages:

1. It picks a base commit from the log, walking from the newest commit.
2. It diffs the base commit against `HEAD`. It keeps the `.properties`
   files whose path contains `/src/main/resources/`, except the `_fr`,
   `_ja` and `_en` variants and any path mentioning `jndi`, `log4j` or
   `pom`.
3. For each changed file it parses the `+`/`-` lines of its unified diff
   into key/value maps. It folds them, by change kind, into a per-file
   table of added and removed entries. It then reduces each file to the
   entries that really changed: added with a non-empty value, and not
   removed with that same value.
4. It writes one numbered properties file per changed bundle. It also
   writes a `metadata` manifest that maps every written file back to its
   bundle and records the run's totals.

The model follows that structure, one module per concern:

| file | module | models |
|---|---|---|
| `Outcomes.dfy` | `Outcomes` | `Option` and `Result`: the stand-ins for Java's `null` and for exceptions that abort a run |
| `JavaText.dfy` | `JavaText` | the `java.lang.String` operations the service relies on: `trim`, `startsWith`, `endsWith`, `contains`, `indexOf`, `lastIndexOf`, `split("=")` with its removal of trailing empty pieces, and `String.valueOf` of a counter |
| `Translatable.dfy` | `Translatable` | `isTranslatable` |
| `DiffLines.dfy` | `DiffLines` | `notComment`, `toKeyValue`, `extractAdditions` and `extractDeletions` |
| `EffectiveChanges.dfy` | `EffectiveChanges` | the path filter of `changes`, and the accumulation and reduction in `effectiveChanges`. It holds a specification by functions and two methods that build the table step by step, proved equal to it |
| `EffectiveLaws.dfy` | `EffectiveLaws` | what the extraction guarantees about files, keys, change kinds and cancellation |
| `CommitSelection.dfy` | `CommitSelection` | the loop of `commitSince` |
| `Export.dfy` | `Export` | the counters, file naming and manifest of `exportChanged`, with the output directory modelled as a map from file name to stored properties, which may already hold files of an earlier run |

Behaviour that follows the code where a plain reading of the service's
description would differ:

- **Excluded fragments are substring tests.** Locale variants
  (`_fr.properties`, `_ja.properties`, `_en.properties`) and `jndi`, `log4j`,
  `pom` are rejected wherever they occur in the path, not only as a suffix.
  `ExcludedFragmentRejected` states this.
- **Only three locales are excluded.** Other variants, such as
  `messages_de.properties`, pass the filter and are exported like base
  bundles. `IsTranslatable`'s contract lists the excluded fragments in
  full.
- **The resource directory needs a leading `/`.** The test is
  `contains("/src/main/resources/")`, and diff paths are relative to the
  repository root. So the bundles of a module at the root
  (`src/main/resources/messages.properties`) are never kept.
  `IsTranslatable`'s contract says so through its `Occurs` clause.
- **Lines are split on every `=`.** Java's `split` cuts the text at every
  `=`, not only the first one, and then drops trailing empty pieces. So:
  - `k=a=b` yields the value `""`;
  - `k=v=` yields the value `v`;
  - a remainder made only of `=` characters yields no piece at all, and the
    run aborts (`ParseError.NoKeyValue`).
- **`metadata.total.file` is the counter's final value**, which is the
  number of bundles visited plus one, not the number of files.
- **`metadata.total.keys` counts every visited bundle**, including those
  whose file could not be written.
- **The output directory is reused.** It is created only when missing.
  Files of an earlier run stay, unless this run writes a file of the same
  name. An earlier file also stays when a write of this run with its name
  failed before the file was opened (`EarlierFileKept`). A write that fails
  after opening leaves the earlier file truncated; that is not modelled
  (see "## Left out").

## Model

Source paths are relative to the repository root.

| member | source | states |
|---|---|---|
| Translatable.IsTranslatable | src/main/java/org/talend/components/i18n/ChangesService.java:228-237 | a path is kept iff it ends with `.properties`, contains `/src/main/resources/` somewhere, and contains none of the six excluded fragments (substring occurrence, stated with an index quantifier) |
| Translatable.LocaleVariantRejected | src/main/java/org/talend/components/i18n/ChangesService.java:231-233 | any path ending in `_fr`, `_ja` or `_en` followed by `.properties` is rejected |
| Translatable.FrenchBundleRejected | src/main/java/org/talend/components/i18n/ChangesService.java:231 | `module/src/main/resources/messages_fr.properties` is rejected |
| Translatable.ExcludedFragmentRejected | src/main/java/org/talend/components/i18n/ChangesService.java:231-236 | an excluded fragment anywhere in a path, even inside a directory name, rejects it |
| JavaText.SplitDropsTrailingSeparators | src/main/java/org/talend/components/i18n/ChangesService.java:199 | `split("=")` of a non-empty text equals cutting it at every `=` after its trailing `=` characters are removed, and yields nothing when only `=` characters remain |
| JavaText.ContainsIff | src/main/java/org/talend/components/i18n/ChangesService.java:230-236 | `String.contains` holds iff the fragment occurs at some index of the path |
| JavaText.Trim | src/main/java/org/talend/components/i18n/ChangesService.java:199 | defined by its body: `String.trim()`, removing characters up to U+0020 at both ends; characterized by `TrimStartFacts`, `TrimEndFacts`, `TrimFacts` and `TrimIdempotent` |
| JavaText.Contains | src/main/java/org/talend/components/i18n/ChangesService.java:230-236 | defined by its body: a left-to-right scan for the fragment; characterized by `ContainsIff` |
| JavaText.Split | src/main/java/org/talend/components/i18n/ChangesService.java:199 | defined by its body: `[s]` without a separator, otherwise the pieces without trailing empty ones; characterized by `SplitDropsTrailingSeparators`, `JoinPieces` and `PiecesFacts` |
| JavaText.Decimal | src/main/java/org/talend/components/i18n/ChangesService.java:99-100 | `String.valueOf` of a counter: a non-empty run of digits; characterized by `DecimalRoundTrip` and `DecimalInjective` |
| JavaText.TrimFacts | src/main/java/org/talend/components/i18n/ChangesService.java:199 | `trim` gives nothing exactly for blank text, and otherwise text whose two ends are not blank |
| JavaText.TrimIdempotent | src/main/java/org/talend/components/i18n/ChangesService.java:199 | trimming twice is trimming once |
| JavaText.JoinPieces | src/main/java/org/talend/components/i18n/ChangesService.java:199 | cutting at every separator loses nothing: joining the pieces back gives the text |
| JavaText.PiecesFacts | src/main/java/org/talend/components/i18n/ChangesService.java:199 | there is one piece more than there are separators, and no piece contains one |
| JavaText.BaseName | src/main/java/org/talend/components/i18n/ChangesService.java:89 | `substring(lastIndexOf("/") + 1)` is a suffix of the path without `/`, and is either the whole path or preceded by a `/` |
| JavaText.DecimalRoundTrip | src/main/java/org/talend/components/i18n/ChangesService.java:99-100 | the decimal text of a counter reads back as that counter |
| DiffLines.NotComment | src/main/java/org/talend/components/i18n/ChangesService.java:202-204 | defined by its body: the line after its marker, trimmed, does not start with `#`; characterized by `IgnoredLinesContributeNothing` |
| DiffLines.Selected | src/main/java/org/talend/components/i18n/ChangesService.java:173-176 | defined by its body: the four stream filters of `extractAdditions` (and the mirror filters at lines 186-189 for deletions); characterized by `UnselectedLineIrrelevant` and `IgnoredLinesContributeNothing` |
| DiffLines.KeyValue | src/main/java/org/talend/components/i18n/ChangesService.java:198-200 | defined by its body: `split("=")` of the remainder, then `kv[0]` and `kv.length == 2 ? kv[1] : ""` as at line 178, with no entry when the split is empty; characterized by `KeyValueMatchesSpec` and `KeyValueOfPair` |
| DiffLines.Parse | src/main/java/org/talend/components/i18n/ChangesService.java:177-178 | defined by its body: `KeyValue` of the trimmed remainder of a line; characterized by `MalformedIff` |
| DiffLines.Extract | src/main/java/org/talend/components/i18n/ChangesService.java:172-196 | defined by its body: the selected lines parsed in order and collected with the later value winning, or the first parse failure; characterized by `ExtractKeys`, `ExtractLastWins` and `ExtractFailure` |
| DiffLines.KeyValueMatchesSpec | src/main/java/org/talend/components/i18n/ChangesService.java:198-200 | the key is the text before the first `=` of the remainder stripped of trailing `=`; the value is the text after its last `=` when exactly one `=` is left, otherwise `""`; nothing when only `=` characters remain |
| DiffLines.KeyValueOfPair | src/main/java/org/talend/components/i18n/ChangesService.java:198-200 | a key and a value without `=`, joined by one `=`, are read back as that key and value (an empty value included), unless both are empty |
| DiffLines.KeyValueOfTriple | src/main/java/org/talend/components/i18n/ChangesService.java:198-200 | with a second `=` followed by more text, the key is read and the value is `""` |
| DiffLines.KeyValueOfPairThenSeparator | src/main/java/org/talend/components/i18n/ChangesService.java:198-200 | a trailing `=` after a non-empty value is dropped and the pair is read back |
| DiffLines.KeyValueEmptyValue | src/main/java/org/talend/components/i18n/ChangesService.java:178 | `k=` gives key `k` and value `""` |
| DiffLines.KeyValueOneSeparator | src/main/java/org/talend/components/i18n/ChangesService.java:178 | `k=v` gives key `k` and value `v` |
| DiffLines.KeyValueSeveralSeparators | src/main/java/org/talend/components/i18n/ChangesService.java:178 | `k=a=b` gives key `k` and value `""` |
| DiffLines.KeyValueEmptyKey | src/main/java/org/talend/components/i18n/ChangesService.java:178 | `=v` gives key `""` and value `v` |
| DiffLines.KeyValueOnlySeparators | src/main/java/org/talend/components/i18n/ChangesService.java:178 | `===` gives no piece, so no entry |
| DiffLines.KeyValueTrailingSeparator | src/main/java/org/talend/components/i18n/ChangesService.java:178 | `k=v=` gives key `k` and value `v` |
| DiffLines.MalformedIff | src/main/java/org/talend/components/i18n/ChangesService.java:177-178 | a selected line has no entry iff its remainder is made only of `=` characters |
| DiffLines.ExtractFailure | src/main/java/org/talend/components/i18n/ChangesService.java:172-183 | an extraction fails iff one of its selected lines is made only of `=` after the marker, and the error names the first such line |
| DiffLines.ExtractKeys | src/main/java/org/talend/components/i18n/ChangesService.java:172-183 | a key is extracted iff some line that passes all four filters (non-empty content, not a header, not a comment, the right marker) defines it |
| DiffLines.ExtractLastWins | src/main/java/org/talend/components/i18n/ChangesService.java:179-182 | the value extracted for a key comes from the last line that defines it |
| DiffLines.UnselectedLineIrrelevant | src/main/java/org/talend/components/i18n/ChangesService.java:173-176 | inserting a line that fails any filter anywhere changes nothing |
| DiffLines.IgnoredLinesContributeNothing | src/main/java/org/talend/components/i18n/ChangesService.java:173-176 | empty lines, blank remainders, `#` comments, `+++`/`---` headers and lines with another first character contribute nothing |
| DiffLines.OtherSideIgnored | src/main/java/org/talend/components/i18n/ChangesService.java:172-196 | additions never read `-` lines and deletions never read `+` lines: removing them leaves the extraction unchanged |
| DiffLines.WithoutMarker | src/main/java/org/talend/components/i18n/ChangesService.java:176 | the lines kept start with some other character than the marker; every kept line is an input line, and every input line without the marker is kept |
| DiffLines.WithoutMarkerConcat | src/main/java/org/talend/components/i18n/ChangesService.java:176 | removing the marked lines distributes over concatenation, so the other lines keep their order |
| DiffLines.WithoutMarkerLine | src/main/java/org/talend/components/i18n/ChangesService.java:176 | a single line is removed exactly when it starts with the marker |
| EffectiveChanges.Changes | src/main/java/org/talend/components/i18n/ChangesService.java:217-219 | defined by its body: the diff entries whose new path is translatable, in order; characterized by `EffectiveLaws.ChangesKeepsTranslatable` |
| EffectiveChanges.Step | src/main/java/org/talend/components/i18n/ChangesService.java:119-136 | defined by its body: one entry merged into its file's slot by change kind; characterized by `EffectiveLaws.RecordBundle` |
| EffectiveChanges.Record | src/main/java/org/talend/components/i18n/ChangesService.java:119-143 | defined by its body: the switch on the change kind, RENAME and COPY leaving the table as it is; characterized by `EffectiveLaws.RecordSlot` and `EffectiveLaws.RenameCopyIgnored` |
| EffectiveChanges.Accumulate | src/main/java/org/talend/components/i18n/ChangesService.java:111-149 | defined by its body: the entries folded in order, the first parse failure aborting; characterized by `EffectiveLaws.AccumulateBundles`, `EffectiveLaws.AccumulateBundleKeys`, `EffectiveLaws.AccumulateLastWins` and `AccumulateFailureSticks` |
| EffectiveChanges.Effective | src/main/java/org/talend/components/i18n/ChangesService.java:153-161 | defined by its body: the ADD entries with a non-empty value not removed with the same value; characterized by `EffectiveLaws.EffectiveMeaning` and `EffectiveLaws.EffectiveIdempotent` |
| EffectiveChanges.Reduce | src/main/java/org/talend/components/i18n/ChangesService.java:151-166 | defined by its body: each file with a non-empty effective map; characterized by `EffectiveLaws.ReduceBySlot` |
| EffectiveChanges.EffectiveChangesOf | src/main/java/org/talend/components/i18n/ChangesService.java:106-168 | defined by its body: filter, fold, then reduce; characterized by `EffectiveLaws.ResultShape` and `EffectiveLaws.PerFileIndependence` |
| EffectiveChanges.RecordEntry | src/main/java/org/talend/components/i18n/ChangesService.java:119-144 | the in-place `putIfAbsent`/`putAll` switch on one entry gives the table of `Record`: ADD merges additions into the ADD bundle, DELETE deletions into the DELETE bundle, MODIFY both in that order, RENAME/COPY nothing; a parse failure aborts |
| EffectiveChanges.EffectiveChanges | src/main/java/org/talend/components/i18n/ChangesService.java:108-168 | the two loops (fold over the translatable entries, then reduce file by file) return exactly `EffectiveChangesOf(entries)` |
| EffectiveChanges.AccumulateFailureSticks | src/main/java/org/talend/components/i18n/ChangesService.java:112-150 | once an entry's parse fails, the whole run fails with that error |
| EffectiveLaws.ChangesKeepsTranslatable | src/main/java/org/talend/components/i18n/ChangesService.java:217-219 | an entry survives the filter iff it is one of the entries and its new path is translatable |
| EffectiveLaws.UntranslatableEntryIgnored | src/main/java/org/talend/components/i18n/ChangesService.java:217-219 | appending an entry with an untranslatable path leaves the result unchanged |
| EffectiveLaws.FrenchBundleIgnored | src/main/java/org/talend/components/i18n/ChangesService.java:217-219 | a French bundle's entry, of any kind and content, leaves the result unchanged |
| EffectiveLaws.AccumulateBundles | src/main/java/org/talend/components/i18n/ChangesService.java:119-144 | a file has an ADD (DELETE) bundle iff some ADD or MODIFY (DELETE or MODIFY) entry names it |
| EffectiveLaws.AccumulatePaths | src/main/java/org/talend/components/i18n/ChangesService.java:119-144 | a file has a slot iff some ADD, DELETE or MODIFY entry names it; RENAME and COPY create none |
| EffectiveLaws.LastEntryOverwrites | src/main/java/org/talend/components/i18n/ChangesService.java:123-136 | when the last entry of the whole list feeds a bundle, every key it extracts holds that entry's value after `putAll` |
| EffectiveLaws.RecordBundle | src/main/java/org/talend/components/i18n/ChangesService.java:119-144 | one entry merges its extraction into each bundle it feeds, after a successful parse, and leaves every other bundle unchanged |
| EffectiveLaws.FeedingEntriesParse | src/main/java/org/talend/components/i18n/ChangesService.java:123-136 | in a run that does not abort, every entry feeding a bundle parsed successfully |
| EffectiveLaws.AccumulateBundleKeys | src/main/java/org/talend/components/i18n/ChangesService.java:123-136 | a key is in a file's ADD (DELETE) bundle iff some entry feeding that bundle extracted it |
| EffectiveLaws.AccumulateLastWins | src/main/java/org/talend/components/i18n/ChangesService.java:123-136 | a bundle's value for a key is the one extracted by the last entry of the file that extracted that key; later entries without the key leave it alone |
| EffectiveLaws.BundleValueFromLine | src/main/java/org/talend/components/i18n/ChangesService.java:123-136 | that value is the one written on the last line defining the key in that entry's diff |
| EffectiveLaws.RenameCopyIgnored | src/main/java/org/talend/components/i18n/ChangesService.java:138-143 | a RENAME or COPY entry can be removed from anywhere in the list without changing the table |
| EffectiveLaws.ForPath | src/main/java/org/talend/components/i18n/ChangesService.java:121 | the entries selected all name the given path |
| EffectiveLaws.SlotDependsOnOwnEntries | src/main/java/org/talend/components/i18n/ChangesService.java:119-144 | a file's slot after a successful fold equals the slot of a fold over that file's own entries only |
| EffectiveLaws.EffectiveMeaning | src/main/java/org/talend/components/i18n/ChangesService.java:154-161 | a key is effective iff it is in the ADD bundle with a non-empty value and the DELETE bundle is absent, lacks it or holds another value; its effective value is the ADD value |
| EffectiveLaws.IdenticalPairCancels | src/main/java/org/talend/components/i18n/ChangesService.java:156-158 | a key added and removed with the same value is not effective |
| EffectiveLaws.NoAdditionNoEffect | src/main/java/org/talend/components/i18n/ChangesService.java:154 | a slot without an ADD bundle, or with an empty one, has no effective entries |
| EffectiveLaws.EffectiveIdempotent | src/main/java/org/talend/components/i18n/ChangesService.java:154-161 | reducing the reduced bundle again against the same deletions changes nothing |
| EffectiveLaws.ReduceBySlot | src/main/java/org/talend/components/i18n/ChangesService.java:152-166 | a file is in the result iff its slot's effective map is non-empty, and then maps to that map |
| EffectiveLaws.ResultShape | src/main/java/org/talend/components/i18n/ChangesService.java:151-166 | every reported file has a translatable path and an ADD or MODIFY entry, and maps to a non-empty map of non-empty values |
| EffectiveLaws.ChangesForPath | src/main/java/org/talend/components/i18n/ChangesService.java:217-219 | filtering by translatability commutes with selecting one file's entries |
| EffectiveLaws.PerFileIndependence | src/main/java/org/talend/components/i18n/ChangesService.java:111-166 | in a run that does not abort, a file's result (present or not, and its entries) is the same as in a run over that file's entries alone |
| EffectiveLaws.AddedLine | src/main/java/org/talend/components/i18n/ChangesService.java:172-183 | `+k=v` is the addition `k -> v` and no deletion |
| EffectiveLaws.RemovedLine | src/main/java/org/talend/components/i18n/ChangesService.java:185-196 | `-k=v` is the deletion `k -> v` and no addition |
| EffectiveLaws.SingleModify | src/main/java/org/talend/components/i18n/ChangesService.java:130-137 | one MODIFY entry of a translatable path gives a slot holding its two extractions |
| EffectiveLaws.AddedEntryReported | src/main/java/org/talend/components/i18n/ChangesService.java:151-166 | a modified bundle whose diff adds `k=v` is reported with exactly `k -> v` |
| EffectiveLaws.UnchangedEntryCancels | src/main/java/org/talend/components/i18n/ChangesService.java:156-158 | a diff with `-k=v` and `+k=v` reports nothing |
| EffectiveLaws.EmptyValueDropped | src/main/java/org/talend/components/i18n/ChangesService.java:160 | a diff adding `k=` reports nothing |
| CommitSelection.KeptPrefix | src/main/java/org/talend/components/i18n/ChangesService.java:271-278 | the number of commits the loop passes before it breaks, at most the log's length; characterized by `KeptPrefixFacts` |
| CommitSelection.SelectedCommit | src/main/java/org/talend/components/i18n/ChangesService.java:255-283 | defined by its body: the unparsable `since` fails, no commit passed fails, otherwise the position of the last commit passed, which lies within the log; characterized by `SelectionMeaning` and `OldestCommitSince` |
| CommitSelection.KeptPrefixFacts | src/main/java/org/talend/components/i18n/ChangesService.java:271-278 | the loop passes exactly a prefix of commits not before `since`, and stops at the log's end or at a commit before `since` |
| CommitSelection.CommitSince | src/main/java/org/talend/components/i18n/ChangesService.java:255-283 | the loop with its early `break` succeeds exactly when `SelectedCommit(log, since)` does, fails with the same error otherwise (unparsable `since`, or no commit kept), and on success returns the object id of the commit at the selected position, the last one kept |
| CommitSelection.SelectionMeaning | src/main/java/org/talend/components/i18n/ChangesService.java:271-282 | selection succeeds iff the log is non-empty and its newest commit is not before `since` (equal times are kept); the chosen commit and all newer ones are not before `since`, and the next older one is |
| CommitSelection.OldestCommitSince | src/main/java/org/talend/components/i18n/ChangesService.java:271-278 | in a newest-first log, a commit is at or after `since` iff it is no older than the chosen one; on failure every commit is before `since` |
| CommitSelection.BreakHidesLaterCommits | src/main/java/org/talend/components/i18n/ChangesService.java:273-275 | a commit before `since` hides every commit after it in the log, even newer ones |
| Export.OutputName | src/main/java/org/talend/components/i18n/ChangesService.java:89 | defined by its body: the counter, a dash and the base name; characterized by `OutputNameParts` and `OutputNamesDistinct` |
| Export.BundleFiles | src/main/java/org/talend/components/i18n/ChangesService.java:86-95 | defined by its body: the directory after the bundle writes; characterized by `BundleFileNames`, `BundleFileContent`, `EarlierFileKept` and `BundleFileCount` |
| Export.Mapping | src/main/java/org/talend/components/i18n/ChangesService.java:91 | defined by its body: the name-to-path entries of the stored files; characterized by `MappingNames` and `MappingEntries` |
| Export.KeyTotal | src/main/java/org/talend/components/i18n/ChangesService.java:88 | defined by its body: the key count of the visited bundles; used by `ManifestSummary` |
| Export.Manifest | src/main/java/org/talend/components/i18n/ChangesService.java:83-101 | defined by its body: the file entries, then the four summary entries; characterized by `ManifestSummary`, `ManifestContent` and `ManifestKeys` |
| Export.ExportOf | src/main/java/org/talend/components/i18n/ChangesService.java:75-105 | defined by its body: the whole export with its three failure points; characterized by `ExportSucceeds` |
| Export.ExportChanged | src/main/java/org/talend/components/i18n/ChangesService.java:75-105 | the loop over the changed files and the manifest writing, into a directory that may already hold files, give exactly `ExportOf`: directory failure first, then extraction failure, skipped bundles whose write fails, and a manifest failure after the bundle files are written |
| Export.OutputNames | src/main/java/org/talend/components/i18n/ChangesService.java:89 | one name per visited file |
| Export.DashAfterDigits | src/main/java/org/talend/components/i18n/ChangesService.java:89 | in `counter + "-" + rest` the first dash is the one after the counter |
| Export.NumberedNameInjective | src/main/java/org/talend/components/i18n/ChangesService.java:89 | the counter can be read back from a file name |
| Export.OutputNamesDistinct | src/main/java/org/talend/components/i18n/ChangesService.java:89 | different counter values never give the same file name, whatever the paths |
| Export.OutputNameParts | src/main/java/org/talend/components/i18n/ChangesService.java:89 | a file name starts with the decimal counter, followed by the first dash, and ends with the bundle's base name |
| Export.OutputNamesWellNamed | src/main/java/org/talend/components/i18n/ChangesService.java:84-89 | the names of one run start with a digit and are pairwise distinct |
| Export.WellNamedNotReserved | src/main/java/org/talend/components/i18n/ChangesService.java:97-101 | such names never equal the manifest's file name or its four summary keys |
| Export.BundleFileNames | src/main/java/org/talend/components/i18n/ChangesService.java:86-95 | the directory holds a file exactly under the names it held before and the name of each visit whose write succeeded |
| Export.EarlierFileKept | src/main/java/org/talend/components/i18n/ChangesService.java:76-95 | in the model, where a failed write changes nothing, a file of an earlier run that no successful write names is kept unchanged, even when a failed write had its name |
| Export.BundleFileContent | src/main/java/org/talend/components/i18n/ChangesService.java:90 | each written file holds its bundle's changes; no later visit overwrites it |
| Export.BundleFileCount | src/main/java/org/talend/components/i18n/ChangesService.java:86-95 | the directory grows by one file per successful write whose name is new |
| Export.NewFileCountEmpty | src/main/java/org/talend/components/i18n/ChangesService.java:76-95 | in a directory that starts empty, every successful write adds a file |
| Export.MappingNames | src/main/java/org/talend/components/i18n/ChangesService.java:91 | the manifest's file entries are exactly the names of successful writes |
| Export.MappingEntries | src/main/java/org/talend/components/i18n/ChangesService.java:90-93 | a successful write's name maps to its bundle path; a failed write's name is absent from the manifest |
| Export.ManifestSummary | src/main/java/org/talend/components/i18n/ChangesService.java:96-100 | for any run, even one with no file or only failed writes, the manifest holds the repository path and `since`; its file total reads back as the visit count plus one, and its key total as the key count of all visited bundles |
| Export.ManifestContent | src/main/java/org/talend/components/i18n/ChangesService.java:90-101 | the manifest maps a visit's file name to its bundle path iff its write succeeded |
| Export.ManifestKeys | src/main/java/org/talend/components/i18n/ChangesService.java:91-100 | the manifest's keys are the four summary keys and the names of the written files, nothing else |
| Export.ExportSucceeds | src/main/java/org/talend/components/i18n/ChangesService.java:75-105 | the run succeeds iff the directory is usable, the extraction succeeded and the manifest was stored. A failure before the loop leaves the directory as it was. On success the directory gains one file per write whose name is new, plus the manifest unless an earlier one is replaced. A directory that starts empty ends with one file per successful write plus the manifest |

## Left out

- JGit is not part of this model: opening and closing the repository,
  `git.log()`, `git.diff()`, `DiffFormatter`, `prepareTreeParser`,
  `PathSuffixFilter` and the resolution of `HEAD`.
  - The log is an input sequence of commits, newest first as the library
    yields them.
  - The diff is an input sequence of entries (new path, change kind, diff
    lines).
  - The new path is taken as given. For a deleted file the library reports
    a placeholder path, and whether the DELETE branch is ever reached
    depends on that path.
- `DiffOutputStream` and the reading of its buffer into lines: the diff
  body of each entry is given directly as its lines. `DiffOutputStream`
  turns each byte into a code point, sign-extended. A diff holding a byte
  above 0x7F therefore makes `new String(int[], 0, 1)` throw and aborts
  the run. The model accepts any text and does not capture that abort.
- Date parsing and time zones (`Calendar`, `SimpleDateFormat`,
  `Configuration.java`). `since` arrives as an optional instant in
  milliseconds, `None` standing for text that does not parse. Commit times
  are in seconds and are compared after multiplying by 1000.
- File-system effects (`mkdirs`, `FileWriter`, `Properties.store`) are
  success flags:
  - one flag for the output directory;
  - one flag per bundle file;
  - one flag for the manifest.

  A write that fails is modelled as changing nothing in the directory.
  `new FileWriter(...)` truncates an existing file before
  `Properties.store` writes it, so a write that fails after opening leaves
  an empty or partly written file. That case is not modelled.
- Logging: the duplicate-key warning and the failed-write error change
  nothing else, and are not modelled.
- `HashMap` iteration order is unspecified. The export takes the order in
  which it visits the changed files as an input sequence listing every
  file once; numbering depends on it.
- Export.ExportChanged: the counters are unbounded integers. The
  `AtomicInteger` wrap-around after 2^31 - 1 files or keys is not
  modelled.
- Export.ExportChanged: failures of the extraction other than the
  key/value parse failure are not modelled. These are the Git errors, the
  unparsable `since` and the absence of any commit since that date. The
  last two are `CommitSelection.SelectError.UnparsableSince` and
  `CommitSelection.SelectError.NoCommitSince`, which `CommitSelection`
  models on its own.
- CommitSelection.CommitSince: `GitAPIException` from the log command is
  not modelled.
- `ChangesServiceTest.java` is a smoke test with no assertions and is not
  part of this model.
