# Eggs-Tracker, modelled in Dafny

Eggs-Tracker collects Pterodactyl/Pelican "eggs" (JSON server templates)
from a list of GitHub repositories. For each repository it:

- walks the repository's JSON files;
- keeps the files that pass a validity gate and turns each into an egg
  record, with a raw GitHub link, a type derived from the file's path, a
  detected language and a human-readable size;
- merges the records into one sorted list per author under `api/`;
- records one link row per author in `api/links.json`, so that an
  unchanged repository is skipped next time.

A small Python service (`model/main.py`) identifies the language of a
text; the detector client calls it.

The model covers:

- **Type resolution.** Two chains:
  - the rule chain (`RepositoryRule`, `DefaultRule`, `PelicanEggsRule`,
    `RuleManager`): modules `Rules`, `RuleManagement`;
  - the provider chain (`BaseProvider`, `DefaultProvider`,
    `PelicanEggsProvider`, `Ashu11AProvider`, `ProviderRegistry`):
    modules `Providers`, `ProviderRegistration`.

  A path is a sequence of segments (`Paths`). The two "strip noise from the
  leaf upward" walks are one function, `Paths.StripNoise`, with each
  strategy's own noise test. `DefaultRule` tests the whole remaining path
  for `pt-br`/`en`; `Ashu11AProvider` tests the basename.
- **Record extraction**, in its three generations:
  - `EggProcessing`: both `EggProcessor` classes. The newer language step
    can give `null`; the older one falls back to `en`.
  - `GetEggs`: `getEggs`, with a strict `undefined` gate and unsorted
    output.
  - `GenMap`: `genMap`, with a positional type and an upsert by name into
    the previous list.

  The glob, file reads, sizes and detectors are inputs. Each loop is a
  method proved equal to a filter-map (`Sequences.FilterMap`), followed by
  a stable sort by name (`Sorting.SortBy`) where the source sorts.
- **Merge stores.**
  - `Merging`: `Merge.read`, an `Object.assign` overlay of cache, memory
    and the current repository into the static map, and `Merge.write`,
    which flattens, sorts and writes three artifacts.
  - `Links`: the link rows and their upsert by author.
- **Orchestrators.** `Tracker` models `EggTrackerApp` (a class with its
  `links`/`linkCache` fields) and the older script `start.ts`. Each has a
  per-repository step function and a run over the repository list, and
  the methods are proved equal to these.
- **Language text.**
  - `LanguageDetection`: `LanguageDetector`'s text assembly, its
    short-text gate and its fallback.
  - `LanguageCodes`: `LanguageCodeNormalizer`, with `Intl.Locale` as an
    uninterpreted partial parser.
  - `LanguageFallback`: `normalizeWithFallback`.
  - `LanguageIdentifier`: `clean_input_text` and the `/identify` endpoint
    of `model/main.py`.
- **Scheduling.** `AsyncQueues`: `AsyncQueue` as atomic enqueue, start and
  finish steps on a class with `queue` and `running` fields.
- **Formatting.** `Formatter`: `normalizeString` (built on `Whitespace`)
  and the integer part of `formatBytes`.

Some behaviours of the code worth knowing before reading the model:

- `LanguageDetector.detect` returns the service's raw `language` field,
  without normalising it.
- The newer `EggProcessor` asks `detectFromEgg` first. That call yields the
  detector's fallback (`en`) for short text, not `null`. `null` only comes
  from `detectLanguage` when the detector is down.
- `DefaultRule` compares the whole remaining path, not its basename, with
  `pt-br`/`en`.
- `EggTrackerApp` imports the older `functions/EggProcessor.ts` (cld, with
  an `en` fallback), so its run uses that generation.
- `getEggs` only rejects a name that is `undefined`, so an egg named
  `null` reaches `Merge.write`. There the sort's comparator calls
  `localeCompare` on a name that is not a string, which throws a
  `TypeError`. The script's run is then rejected and `api/links.json` is
  not written. The application catches the error after `read` has changed
  memory: that author's files are not written and no link is added.

## Model

| member | source | states |
|---|---|---|
| Paths.StripFirstSegmentIsReplace | src/processors/EggProcessor.ts:110 | dropping the first path segment is exactly `replace(first + '/', '')` on the path string |
| Paths.EndsWithIsBasenameTest | src/config/DefaultRule.ts:19 | the path string ends with a '/'-free suffix iff its basename does |
| Paths.JoinSnoc | src/config/DefaultRule.ts:22 | a path's string is its parent's (`join(p, '..')`), '/', and its basename |
| Paths.SplitOfToString | src/functions/genMap.ts:38 | `split('/')` of a path string gives back its segments |
| Paths.StripNoiseAllNoise | src/config/DefaultRule.ts:16-26 | a walk over a path whose every prefix is noise ends at "." |
| Paths.StripNoiseInnermost | src/config/DefaultRule.ts:16-26 | the walk returns the innermost segment that is not noise when every later one is |
| Paths.StripNoiseKept | src/providers/Ashu11AProvider.ts:21-34 | the walk returns "", "." or a segment of the path that is not noise |
| Rules.ConstructedRule | src/config/RepositoryRule.ts:8-21 | an omitted ignore list is `[]`, a given one is what `getIgnorePatterns` answers, and the rule matches as its pattern says |
| Rules.ExactMatchesOnlyItself | src/config/RepositoryRule.ts:16-21 | a string pattern matches exactly the identical author |
| Rules.PelicanRuleIsCaseSensitive | src/config/PelicanEggsRule.ts:7-9 | `pelican-eggs` matches and `Pelican-Eggs` does not |
| Rules.ConcreteRules | src/config/DefaultRule.ts:8-10 | `DefaultRule` matches every author, `PelicanEggsRule` only `pelican-eggs`; both ignore Archived and package.json |
| Rules.PelicanTypeIgnoresPath | src/config/PelicanEggsRule.ts:11-13 | the pelican type is the repository name, the same for any two paths |
| Rules.DefaultTypeIgnoresRepoName | src/config/DefaultRule.ts:12-14 | the default type does not depend on the repository name |
| Rules.DefaultWalkNeverNoise | src/config/DefaultRule.ts:16-26 | the default type is never `eggs` nor a `.json` name; it is "" only for the empty path, else "." or a segment |
| Rules.DefaultWalkLocalisedEgg | src/config/DefaultRule.ts:16-26 | `eggs/pt-br/minecraft/egg.json` has type `minecraft` |
| Rules.DefaultWalkKeepsInnerLanguageFolder | src/config/DefaultRule.ts:20 | `x/en/y.json` has type `en`, because the whole path is compared |
| Rules.DefaultWalkExhausted | src/config/DefaultRule.ts:22-25 | `eggs/x.json` has type "." |
| RuleManagement.FirstMatch | src/config/RuleManager.ts:29 | the index found matches, every earlier rule does not, and no index means no rule matches |
| RuleManagement.SelectRule | src/config/RuleManager.ts:28-31 | the first matching rule, else the last rule; nothing (undefined) exactly for an empty list |
| RuleManagement.RuleManager.constructor | src/config/RuleManager.ts:11-16 | a given list, even empty, replaces the defaults `[PelicanEggsRule, DefaultRule]` |
| RuleManagement.RuleManager.AddRule | src/config/RuleManager.ts:21-23 | the new rule is put in front of the old list |
| RuleManagement.AddedRuleWins | src/config/RuleManager.ts:21-31 | a prepended rule is chosen for every author it matches |
| RuleManagement.AddedRuleKeepsOthers | src/config/RuleManager.ts:21-31 | for other authors the choice, fallback included, is unchanged |
| RuleManagement.TypeAndIgnoreFromSameRule | src/config/RuleManager.ts:36-47 | the egg type and the ignore list come from one and the same rule of the list |
| RuleManagement.DefaultListResolution | src/config/RuleManager.ts:11-16 | with the defaults `pelican-eggs` gets `PelicanEggsRule` and every other author `DefaultRule` |
| RuleManagement.EmptyListThrows | src/config/RuleManager.ts:28-47 | with an empty list both lookups fail (TypeError on undefined) |
| Providers.ProviderDefaults | src/core/BaseProvider.ts:9-13 | an omitted branch is `main` and an omitted ignore list is `[]` |
| Providers.PelicanEggsProvider | src/providers/PelicanEggsProvider.ts:7-9 | the repository is `pelican-eggs/<name>`, on `main` by default, with no ignore patterns |
| Providers.Ashu11AProvider | src/providers/Ashu11AProvider.ts:9-11 | fixed to `Ashu11-A/Ashu_eggs` on `main`, ignoring Archived and package.json |
| Providers.DefaultProvider | src/core/DefaultProvider.ts:9-11 | the ignore list is `**/package.json` followed by the caller's patterns |
| Providers.GetAuthor | src/core/BaseProvider.ts:32-34 | the author is a '/'-free prefix of the repository, the whole of it iff there is no '/' |
| Providers.GetRepoName | src/core/BaseProvider.ts:39-41 | undefined iff the repository has no '/'; otherwise a '/'-free segment |
| Providers.AuthorRepoRoundTrip | src/core/BaseProvider.ts:32-41 | for `author/name` the two getters give back both halves |
| Providers.PelicanMatchesIsAuthorTest | src/providers/PelicanEggsProvider.ts:15-17 | a pelican provider matches exactly the author `pelican-eggs`, which is its own author |
| Providers.PelicanTypeIgnoresPath | src/providers/PelicanEggsProvider.ts:11-13 | the pelican type is the `repoName` argument, whatever the path |
| Providers.AshuWalkNeverNoise | src/providers/Ashu11AProvider.ts:21-34 | the type is never `eggs`, a `.json` name or (any case) `pt-br`/`en` |
| Providers.AshuStripsInnerLanguageFolder | src/providers/Ashu11AProvider.ts:28 | `x/en/y.json` has type `x` here and `en` under `DefaultRule` |
| Providers.AshuWalkExhausted | src/providers/Ashu11AProvider.ts:30 | a path of noise only ends at "." |
| Providers.NoiseStep | src/providers/Ashu11AProvider.ts:25-31 | a noise component (`eggs`, `.json`, `pt-br`/`en`) is walked past to its parent |
| Providers.StripJsonLeafOnPath | src/core/DefaultProvider.ts:18 | the regular expression removes the trailing `/<name>.json` exactly when there is one |
| Providers.DefaultProviderTypeOnString | src/core/DefaultProvider.ts:16-23 | the segment-level type equals the last piece of the string computation |
| Providers.SingleComponentType | src/core/DefaultProvider.ts:18-22 | a path with no '/' is its own type |
| Providers.DefaultProviderExamples | src/core/DefaultProvider.ts:16-23 | `a/b/c.json` gives `b`, `egg.json` itself, `a/b/c.txt` gives `c.txt` |
| Providers.DefaultProviderTypeIsFolder | src/core/DefaultProvider.ts:18-22 | for a `.json` file below a folder the type is that folder |
| ProviderRegistration.FindProvider | src/core/ProviderRegistry.ts:76-78 | undefined iff no provider matches; otherwise a matching provider of the list |
| ProviderRegistration.ProvidersByAuthor | src/core/ProviderRegistry.ts:69-71 | exactly the providers with that author |
| ProviderRegistration.ProviderRegistry.constructor | src/core/ProviderRegistry.ts:12-50 | the registry starts with the default list |
| ProviderRegistration.ProviderRegistry.AddProvider | src/core/ProviderRegistry.ts:55-57 | the provider is appended |
| ProviderRegistration.ProviderRegistry.GetUniqueAuthors | src/core/ProviderRegistry.ts:83-87 | the authors put through a `Set`, in insertion order |
| ProviderRegistration.DedupNoDuplicates | src/core/ProviderRegistry.ts:83-87 | the unique authors have no repetition |
| ProviderRegistration.DedupSameElements | src/core/ProviderRegistry.ts:83-87 | they are exactly the authors that occur |
| ProviderRegistration.DedupFirstOccurrenceOrder | src/core/ProviderRegistry.ts:83-87 | they are listed in order of first occurrence |
| ProviderRegistration.DedupAppend | src/core/ProviderRegistry.ts:83-87 | `add` lists a new author last and ignores a known one |
| ProviderRegistration.AddedProviderHasLowestPriority | src/core/ProviderRegistry.ts:55-57 | an appended provider never changes an existing answer and only fills a miss |
| ProviderRegistration.ProvidersByAuthorAppend | src/core/ProviderRegistry.ts:69-71 | the filter keeps registration order |
| ProviderRegistration.DefaultRegistry | src/core/ProviderRegistry.ts:19-50 | 19 providers: 9 pelican, Ashu11A, 9 generic (GeyserMC on `master`); `pelican-eggs` finds `chatbots` |
| Sorting.Insert | src/processors/EggProcessor.ts:194-196 | one insertion adds exactly one element |
| Sorting.SortBy | src/processors/EggProcessor.ts:194-196 | the sort is a permutation |
| Sorting.SortByIsSorted | src/processors/EggProcessor.ts:194-196 | the sort's output is ordered by `localeCompare` |
| Sorting.SortBySortedIsIdentity | src/processors/EggProcessor.ts:194-196 | an ordered list is left unchanged |
| Sequences.FilterMapExactly | src/processors/EggProcessor.ts:44-50 | the loop keeps one result per accepted item and nothing else |
| Sequences.FilterMapAppend | src/functions/getEggs.ts:26-66 | results of a concatenation are concatenated results |
| Eggs.SplitFirst | src/processors/EggProcessor.ts:31-32 | the text before and after the first separator |
| Eggs.RawGithubUrlRoundTrip | src/processors/EggProcessor.ts:158-160 | the raw link reads back as author, repository name, branch and relative path |
| Eggs.MaxByPercent | src/processors/EggProcessor.ts:182-185 | no language for an empty cld answer; otherwise the first one with the highest percentage |
| Eggs.MaxIndex | src/processors/EggProcessor.ts:183-185 | the `reduce` ends on the first maximal percentage |
| Eggs.MaxByPercentTie | src/processors/EggProcessor.ts:183-185 | ties go to the earlier language |
| EggProcessing.ProcessorSplitsRepository | src/processors/EggProcessor.ts:27-33 | for `author/name` the processor's author and name are the two halves |
| EggProcessing.ValidEggSizeBoundary | src/processors/EggProcessor.ts:92-104 | 735 bytes are rejected, 736 accepted |
| EggProcessing.CreateEgg | src/processors/EggProcessor.ts:109-131 | an egg is built iff the rule list is not empty; name, author, description, exported_at and language are copied, and the size is the given formatter's label |
| EggProcessing.CreateEggLinkAndType | src/processors/EggProcessor.ts:110-119 | the link points at the file minus its first segment; the type is the selected rule's |
| EggProcessing.ProcessFile | src/processors/EggProcessor.ts:70-87 | an egg iff the file parsed and passed the gate; its name and author are truthy |
| EggProcessing.Process | src/processors/EggProcessor.ts:38-57 | the loop's result is the kept eggs, sorted by name |
| EggProcessing.ProcessSortedPermutation | src/processors/EggProcessor.ts:44-56 | sorted, a permutation of the kept eggs, at most one per file, exactly the accepted files' eggs |
| EggProcessing.SkippedFileChangesNothing | src/processors/EggProcessor.ts:70-87 | an unreadable or rejected file leaves the others' result unchanged |
| EggProcessing.DetectLanguageOrigin | src/processors/EggProcessor.ts:166-189 | `null` iff the description is missing or short or cld finds nothing; otherwise the detector's answer or fallback, or cld's first strongest language |
| EggProcessing.ServiceLanguageNull | src/processors/EggProcessor.ts:137-153 | `null` exactly when the detector is down and the description is missing, short or beyond cld |
| EggProcessing.CldOrEnglishNeverNull | src/functions/EggProcessor.ts:128-137 | the older step always gives a language: cld's strongest, else `en` |
| GetEggs.IgnoreListIsRulesList | src/functions/getEggs.ts:21 | the hard-coded ignore list is the rules' list |
| GetEggs.EmptyNamePasses | src/functions/getEggs.ts:32-33 | an empty name passes this gate but not the processor's |
| GetEggs.NullNamePasses | src/functions/getEggs.ts:32-33 | a `null` name passes this gate but not the processor's |
| GetEggs.ProcessorGateIsStricter | src/functions/getEggs.ts:32-33 | every egg the processor accepts passes this gate |
| GetEggs.EggTypeIsDefaultRulesType | src/functions/getEggs.ts:38-48 | the inline type is the default rule list's type |
| GetEggs.EggOf | src/functions/getEggs.ts:28-66 | an egg iff parsed and accepted; it keeps the config's name, has a language and the raw link of its file |
| GetEggs.GetEggs | src/functions/getEggs.ts:20-69 | the loop's result is the filter-map of the files |
| GetEggs.GetEggsInGlobOrder | src/functions/getEggs.ts:26-69 | unsorted, in glob order, one egg per accepted file, each with a language |
| GenMap.AuthorNotChecked | src/functions/genMap.ts:18-19 | a missing author passes, a missing name or 735 bytes do not |
| GenMap.PathPartsIsSplit | src/functions/genMap.ts:38 | the parts are `pathEgg.split('/')` |
| GenMap.PositionalType | src/functions/genMap.ts:37-48 | a type that is kept never ends in `.json` |
| GenMap.PelicanTypeIsRepoName | src/functions/genMap.ts:40-41 | for `pelican-eggs` the type is the repository name, whatever the path |
| GenMap.TopFolderType | src/functions/genMap.ts:42-43 | outside `eggs` the type is the lower-cased first folder with `game_eggs` renamed `games` |
| GenMap.LocalisedType | src/functions/genMap.ts:44-45 | under `eggs/<pt-br or en>/` the type is the third segment |
| GenMap.OtherEggsFoldersUntyped | src/functions/genMap.ts:44-48 | other folders under `eggs`, or a `.json` third segment, give `null` |
| GenMap.JsonFilesNeverThrow | src/functions/genMap.ts:42-45 | the type of a `.json` path never throws |
| GenMap.EggOf | src/functions/genMap.ts:13-63 | a record iff parsed, accepted and typed; its name is the file's and it has a language |
| GenMap.FindByName | src/functions/genMap.ts:72 | the first index with that name, or none |
| GenMap.FindBySameNames | src/functions/genMap.ts:72 | the search only looks at names |
| GenMap.UpsertedState | src/functions/genMap.ts:69-76 | the loop keeps the old list's length and names and its untargeted slots, gives each targeted slot the last new egg of that name, and sets aside exactly the unmatched new eggs, in order |
| GenMap.UpsertedShape | src/functions/genMap.ts:69-76 | the loop keeps the old list's length and names; the set-aside eggs are the new eggs whose names the old list lacks, in order |
| GenMap.UpsertedUntargeted | src/functions/genMap.ts:71-75 | a slot no new egg targets keeps its old row |
| GenMap.UpsertedLastWins | src/functions/genMap.ts:71-75 | a targeted slot holds the last new egg of that name |
| GenMap.MergeIntoOld | src/functions/genMap.ts:69-76 | the loop's result is the merged list |
| GenMap.MergedKeepsEverything | src/functions/genMap.ts:69-76 | old length plus the new names; untouched rows kept; the last egg of a name wins |
| GenMap.LastOfNameWins | src/functions/genMap.ts:71-73 | of two eggs with a known name, the later one is kept |
| GenMap.GenerateMap | src/functions/genMap.ts:7-82 | returns the mapped eggs and writes the merged list |
| Merging.IndexOfKey | src/class/Merge.ts:30-32 | the position of a property, or none |
| Merging.Put | src/class/Merge.ts:30-32 | a write keeps the existing properties' order and adds at most one |
| Merging.PutGet | src/class/Merge.ts:30-32 | a write sets that property and no other |
| Merging.AssignGet | src/class/Merge.ts:29-33 | after `Object.assign` a name has the source's list if any, else the target's |
| Merging.MemoryOverCache | src/class/Merge.ts:29-33 | the in-memory object, when there is one, overrides the cached file name by name |
| Merging.OverlayPriority | src/class/Merge.ts:23-33 | the current repository gets its data, memory beats the cache, and no name is lost |
| Merging.FirstReadHoldsOnlyCurrent | src/class/Merge.ts:24-26 | with no cache and nothing in memory only the current repository is stored |
| Merging.FlattenKeepsAll | src/class/Merge.ts:46-49 | the flattened list has every egg of every repository and nothing else |
| Merging.Merge.Read | src/class/Merge.ts:23-37 | only this author's object changes, to the overlay |
| Merging.Merge.Write | src/class/Merge.ts:39-59 | nothing without an object; nothing written when the sort throws; else the sorted flattened list and the object unchanged |
| Merging.SortFailsOnlyOnNameless | src/class/Merge.ts:51 | a sort can only throw on two or more eggs when one of them has a name that is not a string |
| Merging.WrittenListKeepsAll | src/class/Merge.ts:43-51 | when the sort does not throw, the written list is sorted, a permutation of all the lists, as long as all of them |
| Links.LinkIdentifiesAuthor | src/EggTrackerApp.ts:131-136 | a row's link is its author's artifact: two rows share a link iff they share an author |
| Sequences.FirstIndex | src/EggTrackerApp.ts:62 | the first position whose item passes the test, or none when no item does |
| Links.FindByAuthor | src/EggTrackerApp.ts:62 | the first row of that author, or none |
| Links.ShouldSkipExactly | src/EggTrackerApp.ts:59-67 | skip iff a cached row exists, the request succeeds and the dates are equal |
| Links.UpsertLinkShape | src/EggTrackerApp.ts:150-157 | a step keeps places and authors, adds the author, leaves other rows alone, keeps one row per author |
| Links.UpsertLinkFind | src/EggTrackerApp.ts:151-156 | after a step the link's author finds the link, and other authors' lookups are unchanged |
| Links.UpsertAllKeepsRows | src/EggTrackerApp.ts:150-157 | the cached rows keep their places; a row whose author has no link is kept |
| Links.UpsertAllAuthors | src/EggTrackerApp.ts:150-157 | the authors are the cached ones plus the run's, one row each when the cache had one each |
| Links.UpsertAllLastWins | src/EggTrackerApp.ts:150-157 | each author's last link is what its row holds |
| Tracker.MergeStepState | src/class/Merge.ts:23-59 | a merge touches one author, keeps the files in step with memory and stores the repository's eggs; a failed sort leaves every file as it was |
| Tracker.AppStepMirrored | src/EggTrackerApp.ts:73-96 | one repository keeps files and memory in step; a failed clone changes nothing |
| Tracker.AppStepLinks | src/EggTrackerApp.ts:79-96 | a link is added exactly for a refreshed repository whose write succeeds, counting its author's merged eggs; a failed write changes no file and adds no link |
| Tracker.AppRunMirrored | src/EggTrackerApp.ts:39-54 | the whole walk keeps files and memory in step |
| Tracker.AppStepStamps | src/EggTrackerApp.ts:47-52 | a step appends the link of a linked repository and nothing else |
| Tracker.AppRunLinks | src/EggTrackerApp.ts:39-54 | the walk only appends links; when every write succeeds, one per refreshed repository, in list order |
| Tracker.UnchangedRepositoryLeftAlone | src/EggTrackerApp.ts:59-67 | a repository pushed at its cached date leaves the state as it was |
| Tracker.ApiFiles.constructor | src/EggTrackerApp.ts:29-34 | the files under `api/` as given |
| Tracker.MergeAndSave | src/EggTrackerApp.ts:118-122 | `read` then `write` on the objects is the merge step, and the result says whether the sort threw |
| Tracker.EggTrackerApp.constructor | src/EggTrackerApp.ts:14-15 | both lists start empty |
| Tracker.EggTrackerApp.LoadCache | src/EggTrackerApp.ts:29-34 | the rows of `api/links.json`, if any, are appended to the cache |
| Tracker.EggTrackerApp.ProcessRepository | src/EggTrackerApp.ts:39-96 | the objects end as the application's step says |
| Tracker.EggTrackerApp.ProcessRepositories | src/EggTrackerApp.ts:39-54 | the objects end as the walk over `repositories` says |
| Tracker.EggTrackerApp.SaveLinks | src/EggTrackerApp.ts:149-160 | the cache becomes the upsert of the run's links, and that is written |
| Tracker.EggTrackerApp.Run | src/EggTrackerApp.ts:20-24 | load, walk and save: the written rows are the upsert of the run's links into the loaded ones |
| Tracker.ScriptStepMirrored | src/start.ts:49-83 | one repository of the script keeps files and memory in step |
| Tracker.ScriptRunMirrored | src/start.ts:49-83 | so does the whole walk |
| Tracker.ScriptRunAborted | src/start.ts:55-82 | the script is rejected iff it reaches a repository whose request fails, that is refreshed without a working copy, or whose write throws |
| Tracker.ScriptRunLinks | src/start.ts:57-74 | a run that is not rejected adds one link per refreshed repository |
| Tracker.ScriptAgreesWithApp | src/start.ts:49-83 | with every request answered, every copy present and no sort that throws, the script links what the application links |
| Tracker.ScriptRepository | src/start.ts:50-82 | one pass of the loop is the script's step |
| Tracker.SaveRows | src/start.ts:85-96 | the final rows are the upsert of the run's links into the loaded ones |
| Tracker.WalkScript | src/start.ts:49-83 | the loop over the list is the script's run, stopping at the first rejection |
| Tracker.Start | src/start.ts:19-96 | rows are written only by a run that is not rejected |
| Tracker.AbortedPrefix | src/start.ts:49-83 | once rejected, the rest of the list changes nothing |
| LanguageDetection.DetectorDefaults | src/services/LanguageDetector.ts:15-41 | an empty environment URL counts as unset; without a fallback, short text and a failed request give `en` |
| LanguageDetection.Detect | src/services/LanguageDetector.ts:23-41 | the fallback, or the service's answer for text that is not too short |
| LanguageDetection.ShortTextSkipsService | src/services/LanguageDetector.ts:25-27 | short text never reaches the service |
| LanguageDetection.LongTextAsksService | src/services/LanguageDetector.ts:29-40 | otherwise the service's raw answer, or the fallback on error |
| LanguageDetection.KeepNonBlank | src/services/LanguageDetector.ts:47-48 | exactly the non-blank texts are kept |
| LanguageDetection.KeepNonBlankAppend | src/services/LanguageDetector.ts:47-48 | the filter keeps order |
| LanguageDetection.AllBlankGivesFallback | src/services/LanguageDetector.ts:46-52 | only blank texts give the fallback |
| LanguageDetection.SingleTextSentAsIs | src/services/LanguageDetector.ts:47-49 | one non-blank text is sent unchanged |
| LanguageDetection.VariableTexts | src/services/LanguageDetector.ts:73-78 | a variable contributes at most two texts |
| LanguageDetection.CollectTexts | src/services/LanguageDetector.ts:62-85 | the pushes collect the egg's texts |
| LanguageDetection.DetectFromEgg | src/services/LanguageDetector.ts:57-88 | the detector on the collected texts |
| LanguageDetection.DescriptionComesFirstTwice | src/services/LanguageDetector.ts:65-68 | a truthy description leads, twice |
| LanguageDetection.VariableTextsInOrder | src/services/LanguageDetector.ts:71-80 | the variables contribute in list order |
| LanguageDetection.NameOnlyAsLastResort | src/services/LanguageDetector.ts:83-85 | the name is used iff no other text was collected |
| LanguageDetection.NoVariableTextExactly | src/services/LanguageDetector.ts:71-80 | variables contribute nothing iff none has a truthy text |
| LanguageDetection.EmptyEggGetsFallback | src/services/LanguageDetector.ts:57-88 | an egg with no text at all gets the fallback |
| LanguageCodes.TakeUntil | src/utils/LanguageCodeNormalizer.ts:50 | the text before the first separator |
| LanguageCodes.NullOnlyForEmpty | src/utils/LanguageCodeNormalizer.ts:24-26 | `null` iff the input is null or empty |
| LanguageCodes.TwoLetterShortcut | src/utils/LanguageCodeNormalizer.ts:30-35 | a two-letter code is returned trimmed and lower-cased, without parsing |
| LanguageCodes.CleanCodeOfClean | src/utils/LanguageCodeNormalizer.ts:30 | trimming and lower-casing leave a clean code alone |
| LanguageCodes.TwoLetterResultIsFixpoint | src/utils/LanguageCodeNormalizer.ts:33-35 | a two-letter result normalises to itself |
| LanguageCodes.ParseFallbacks | src/utils/LanguageCodeNormalizer.ts:39-64 | parsed subtag; else the re-parsed or raw three-letter head; else the input |
| LanguageCodes.FormatTagReplacesFirstUnderscore | src/utils/LanguageCodeNormalizer.ts:39 | only the first `_` becomes `-` |
| LanguageCodes.OnlyFirstUnderscoreReplaced | src/utils/LanguageCodeNormalizer.ts:39 | `a_b_c` becomes `a-b_c` |
| LanguageCodes.NoUnderscoreTag | src/utils/LanguageCodeNormalizer.ts:39 | a code without `_` is unchanged |
| LanguageCodes.LatnTag | src/utils/LanguageCodeNormalizer.ts:30-39 | a three-letter language with the Latin script, as the detector writes it (`eng_Latn`), is parsed as `<lang>-latn` |
| LanguageCodes.DetectorTagLowered | src/utils/LanguageCodeNormalizer.ts:30 | a three-letter language, `_`, and a capitalised script are lower-cased at the script's capital only |
| LanguageCodes.DetectorTag | src/utils/LanguageCodeNormalizer.ts:30-39 | `<lang>_L<script>` is parsed as `<lang>-l<script>` |
| LanguageCodes.DocumentedExamples | src/utils/LanguageCodeNormalizer.ts:14-19 | `eng_Latn` gives `en`, `por_Latn` gives `pt`, `en` gives `en` |
| LanguageCodes.NormalizeLanguageCodes | src/utils/LanguageCodeNormalizer.ts:80-84 | never more codes out than in |
| LanguageCodes.NormalizeLanguageCodesDropsOnlyEmpty | src/utils/LanguageCodeNormalizer.ts:80-84 | exactly the empty codes are dropped; each other code's result is kept |
| LanguageCodes.NormalizeLanguageCodesCons | src/utils/LanguageCodeNormalizer.ts:80-84 | the first code contributes its normal form exactly when it is not empty |
| LanguageCodes.IsISO6391Exactly | src/utils/LanguageCodeNormalizer.ts:92-94 | iff exactly two ASCII letters of either case |
| LanguageCodes.ConstructorIsKeptAsIs | src/utils/LanguageCodeNormalizer.ts:47-64 | an unparsable code whose head is not three letters is returned as it is |
| LanguageFallback.AsWrittenReturnsNonString | src/utils/LanguageCodeNormalizer.ts:111-123 | the code as written returns an inherited prototype member for `constructor` |
| LanguageFallback.NormalizeWithFallback | src/utils/LanguageCodeNormalizer.ts:111-123 | null iff null or empty input; `und` becomes `en`; anything else is the normaliser's result |
| LanguageFallback.CorrectedAgreesOffPrototype | src/utils/LanguageCodeNormalizer.ts:100-123 | the corrected and written versions agree off the prototype members |
| AsyncQueues.AsyncQueue.constructor | src/utils/AsyncQueue.ts:10-12 | concurrency defaults to 5; an empty queue, nothing running |
| AsyncQueues.AsyncQueue.ProcessNext | src/utils/AsyncQueue.ts:35-51 | nothing when full or empty; else the front task starts and `running` grows by one |
| AsyncQueues.AsyncQueue.Add | src/utils/AsyncQueue.ts:17-30 | a new task joins the back; it starts at once iff a slot is free; tasks start in FIFO order |
| AsyncQueues.AsyncQueue.Finish | src/utils/AsyncQueue.ts:19-50 | the outcome goes to the caller; the task leaves the active ones, the slot is freed and the next task starts |
| AsyncQueues.SerialOrder | src/utils/AsyncQueue.ts:17-51 | with one slot, task 2 waits for task 1 even when task 1 fails |
| Whitespace.CollapseEdges | src/functions/Formatter.ts:34 | the collapse keeps the first and last characters' class |
| Whitespace.CollapseShape | src/functions/Formatter.ts:34 | no two whitespace characters in a row, only plain spaces |
| Whitespace.CollapseKeepsText | src/functions/Formatter.ts:34 | the non-space text is kept in order |
| Whitespace.NonSpaceOfSpaces | src/functions/Formatter.ts:34 | dropping leading whitespace keeps the text |
| Whitespace.NonSpaceOfTrailingSpaces | src/functions/Formatter.ts:34 | dropping trailing whitespace keeps the text |
| Whitespace.CollapseFixpoint | src/functions/Formatter.ts:34 | a collapsed string is left unchanged |
| Whitespace.TrimShape | src/functions/Formatter.ts:34 | `trim` leaves no edge whitespace and keeps the text |
| Formatter.NormalizeStringShape | src/functions/Formatter.ts:33-35 | no edge whitespace, no runs, only plain spaces, the same text |
| Formatter.NormalizeStringIdempotent | src/functions/Formatter.ts:33-35 | normalising twice is normalising once |
| Formatter.UnitIndex | src/functions/Formatter.ts:18 | the exponent k with 1024^k ≤ bytes < 1024^(k+1) |
| Formatter.UnitIndexUnique | src/functions/Formatter.ts:18 | that exponent is the only one |
| Formatter.FormatBytes | src/functions/Formatter.ts:14-21 | `0 Bytes` iff zero; otherwise a `RangeError` from `toFixed` iff more than 100 decimals; negative decimals clamp to 0; the size itself over the power of 1024 that brackets it |
| Formatter.FormatBytesUnit | src/functions/Formatter.ts:18-20 | the unit is `UNITS[i]`, and undefined past `YB` |
| Formatter.FormatBytesExamples | src/functions/Formatter.ts:14-21 | 0, 1023, 1024 (decimals -3) and 736 bytes; 101 decimals throw except for zero bytes |
| LanguageIdentifier.WordLength | model/main.py:72 | the run of non-space characters |
| LanguageIdentifier.RemovalEndsAtSpace | model/main.py:72 | a removal ends at a space or the end |
| LanguageIdentifier.RemoveUrlsKeptPrefix | model/main.py:72 | a non-space head of the result is the input's own |
| LanguageIdentifier.RemoveUrlsLeavesNoUrl | model/main.py:72 | no `http` + non-space is left |
| LanguageIdentifier.RemoveUrlsFixpoint | model/main.py:72 | a text without URLs is unchanged |
| LanguageIdentifier.ReplaceControlsClears | model/main.py:76 | no `\r`, `\n` or `\t` is left, every other character stays in place, and a second pass changes nothing |
| LanguageIdentifier.ReplaceControlsKeepsText | model/main.py:76 | the replacement keeps the text and adds no URL |
| LanguageIdentifier.CollapseKeptPrefix | model/main.py:79 | a non-space head of the collapse is the input's own |
| LanguageIdentifier.NoUrlSuffix | model/main.py:72-79 | a suffix of a URL-free text is URL-free |
| LanguageIdentifier.CollapseKeepsNoUrl | model/main.py:79 | the collapse adds no URL |
| LanguageIdentifier.TrimKeepsNoUrl | model/main.py:79 | `strip` adds no URL |
| LanguageIdentifier.CleanInputTextShape | model/main.py:64-81 | one stripped line with single spaces, no URL, the URL-free text's characters |
| LanguageIdentifier.CleanInputTextIdempotent | model/main.py:64-81 | cleaning twice is cleaning once |
| LanguageIdentifier.IdentifyLanguage | model/main.py:83-109 | 503 iff no model, 400 iff the cleaned text is empty, else a language |
| LanguageIdentifier.ReplaceAllAbsent | model/main.py:103 | a label without `__label__` is unchanged |
| LanguageIdentifier.IdentifiedCode | model/main.py:92-103 | a prediction `__label__<code>` on the cleaned text answers `<code>` |
| LanguageIdentifier.IdentifierService.constructor | model/main.py:11 | no model at start |
| LanguageIdentifier.IdentifierService.Startup | model/main.py:13-47 | the loaded model, or none when loading failed |
| LanguageIdentifier.IdentifierService.Shutdown | model/main.py:47-50 | the model is released |
| LanguageIdentifier.IdentifierService.Identify | model/main.py:83-109 | the endpoint's answer on the current model |
| Text.TrimStart | src/functions/Formatter.ts:34 | exactly a leading run of whitespace is dropped; what is left starts with a non-space |
| Text.TrimEnd | src/functions/Formatter.ts:34 | exactly a trailing run of whitespace is dropped; what is left ends with a non-space |
| Text.Utf16LengthIsCount | src/services/LanguageDetector.ts:25 | `.length` counts the characters exactly when none lies beyond the Basic Multilingual Plane |
| Text.AsciiLowerLowers | src/config/DefaultRule.ts:20 | no ASCII capital is left, every other character is kept, and lowering twice is lowering once |
| Text.IndexOf | src/processors/EggProcessor.ts:110 | the first position where the pattern occurs; none iff it never occurs |
| Text.ReplaceFirstSplits | src/processors/EggProcessor.ts:110 | in `x + pat + y` with no earlier `pat`, the result is `x + rep + y` |
| Text.SplitOn | src/processors/EggProcessor.ts:31-32 | at least one piece, none holding the separator, the whole string when it is absent |
| Text.SplitHead | src/processors/EggProcessor.ts:31 | `split(sep)[0]` is the longest separator-free prefix, the whole string iff no separator |
| Text.SplitSecond | src/processors/EggProcessor.ts:32 | `split(sep)[1]` exists iff the separator occurs, and heads what follows it |
| Text.AuthorOf | src/core/BaseProvider.ts:32-34 | a '/'-free prefix, the whole repository iff it has no '/', else followed by '/' |
| Text.RepoNameOf | src/core/BaseProvider.ts:39-41 | undefined iff there is no '/'; else a '/'-free piece |
| Text.AuthorIsBeforeFirstSlash | src/core/BaseProvider.ts:32-34 | the author is the text before the first '/' |
| Text.RepoNameIsSecondSegment | src/core/BaseProvider.ts:39-41 | the name is the text between the first '/' and the next one or the end |
| Eggs.SplitFirstOf | src/processors/EggProcessor.ts:31-32 | splitting `x` + separator + `y`, with `x` free of it, gives back `x` and `y` |
| Sequences.FilterMapAgree | src/functions/getEggs.ts:26-67 | two per-file steps that agree on every file keep the same eggs |
| Merging.IndexUnique | src/class/Merge.ts:29-33 | a property name sits in one place of an object |
| Merging.GetLast | src/class/Merge.ts:29-33 | a lookup finds the last property if it has that name, else looks earlier |
| Merging.Metadata.constructor | src/class/Merge.ts:12 | the static map starts empty |
| Merging.Merge.constructor | src/class/Merge.ts:17-21 | the merger keeps its author, data and repository name |
| Text.TrimStartIsSuffix | src/functions/Formatter.ts:34 | `trimStart` drops a whitespace prefix |
| Text.TrimEndIsPrefix | src/functions/Formatter.ts:34 | `trimEnd` drops a whitespace suffix |
| Text.JoinSplit | src/services/LanguageDetector.ts:49 | splitting a join gives back the parts |
| Text.RepositoryRoundTrip | src/core/BaseProvider.ts:32-41 | `author/name` splits into its two halves |

## Left out

- I/O is input or output data. This covers the file system (`exists`,
  `readFile`, `stat`, `writeFile`, `mkdir`, `rm`), the glob and its
  ignore-pattern expansion, the GitHub and detector requests, the
  `isAvailable` probes and `simpleGit().clone`. The files of a repository
  are a list of already-parsed files; a request is an `Option`; a probe is
  a boolean.
- `JSON.parse`/`stringify` are not modelled. Only the fields the code reads
  are kept, and only string or missing values (`JsonField`).
- cld, fasttext and `Intl.Locale` are function parameters.
  `localeCompare` is an abstract total preorder `le`. The sort is a stable
  insertion sort on values, so the in-place array sort and any ICU order
  are not captured. Which pairs the engine compares decides whether the
  sort in `Merge.write` throws on a name that is not a string; that is
  the input `sortThrows`, limited by `Merging.SortEngine`.
- `formatBytes` keeps the exact quotient and the precision;
  `toFixed`/`parseFloat` rounding is floating point and left out.
- `Formatter.FormatBytes`: the unit index is the exact exponent
  `UnitIndex`, not `Math.floor(Math.log(bytes) / Math.log(1024))`. In
  double precision `Math.log(1024^k - 1)` rounds to `Math.log(1024^k)` for
  k ≥ 5, so just below 1024^5 (and each higher power) the code picks the
  next unit up: for 1024^5 − 1 bytes it picks `PB`, where the model picks
  `TB`. The
  `confidence` float of `/identify` is left out for the same reason.
- `getEggs` and `genMap` call `formatBytes` from `./format`, and the newer
  `EggProcessor` calls `Formatter.formatBytes` from
  `src/processors/Formatter.ts`. Neither file is part of this model, so
  those byte labels come from a parameter. The older `EggProcessor` uses
  `src/functions/Formatter.ts` (`EggProcessing.FunctionsFormatter`).
- `Formatter.formatDate` (`toISOString`) is left out: a date is a clock
  value.
- The size gate takes sizes as naturals, so no negative or fractional size
  exists.
- Lower-casing is ASCII only. This is exact for the comparisons with
  `pt-br`, `en`, `eggs` and `game_eggs`; `toLowerCase` on other letters is
  not modelled.
- JavaScript's ordering of integer-like object keys is not modelled.
  Objects keep insertion order.
- Python's `\s` is `IsPySpace` and JavaScript's is `IsJsSpace`, on the
  ASCII and common Unicode spaces; other Unicode separators are not listed.
- `EggProcessing.Process`: the newer `process` awaits
  `languageDetector.waitAll()` (src/processors/EggProcessor.ts:54), which
  the detector does not define. As written, the call throws a `TypeError`,
  so `process` rejects instead of returning its sorted list. The model
  describes the processor without this call.
- `AsyncQueue.waitAll` is only its condition (`Idle`); its `setTimeout`
  polling is timing. Promise interleaving is reduced to atomic enqueue,
  start and finish steps.
- The `lifespan` model search: the model path, the directory walk and the
  Hugging Face download only decide whether a model is loaded. That
  decision is the parameter of `Startup`.
- `download_model.py` is a download script and is not part of this model.
- Both `pushed_at` requests of one repository are answered alike
  (`World.pushedAt`). A response without `pushed_at` is not modelled.
- Whether a working copy exists is fixed for a run (`World.available`).
- A cld percentage is an integer.
- `start.ts` imports `./class/merge` in lower case, while the file is
  `Merge.ts`. The model takes the import as resolved.
- `EggProcessing.CreateEgg`: the newer `createEgg` calls
  `languageDetector.getQueueInfo()` (src/processors/EggProcessor.ts:115),
  which the detector does not define. As written, the call throws a
  `TypeError`; the catch in `processFile` (lines 83-86) turns it into
  `null`, so every file that passes the gate gives no egg. Together with
  the rejected `waitAll()` call, the newer `process` as written returns no
  egg at all. The model describes `createEgg` without this call.
- Eggs in a merge are compared by name only through `localeCompare`.
  Duplicates across repositories are kept, as in the code.

## Findings

| source | as written | input that shows it | evidently intended | confidence | as-written member | corrected member |
|---|---|---|---|---|---|---|
| src/utils/LanguageCodeNormalizer.ts:118-119 | `MANUAL_LANGUAGE_MAP[normalized]` looks the code up on a plain object literal, so inherited `Object.prototype` members are found too | `normalizeWithFallback('constructor')`, with `Intl.Locale` rejecting `constructor`: `normalizeLanguageCode` returns `'constructor'`, the lookup finds the `Object` function, and that function is returned instead of a string | only the map's own key `und` is replaced (by `en`); every other code is returned as normalised | not executed | LanguageFallback.AsWrittenReturnsNonString | LanguageFallback.NormalizeWithFallback |
