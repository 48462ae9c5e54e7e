# Qri's histories, cache, references and protocols, verified

Qri keeps versioned datasets. What it knows of a dataset's history is written down several times: an
append-only log of operations in the logbook, which has no state but what a replay makes of it; a chain
of `PreviousPath` links in a content-addressed store; a head in the ref store; and an entry of the
dscache, which is rebuilt from the logbook or kept up to date by events. This project models those
copies and the code that writes, replays, walks and cuts them, and proves when they tell the same
history over every run of operations. Beside that it models the language of dataset references and its
parser, the machine that makes dataset names out of text, the HTTP form of references, two concurrent
protocols (the profile exchange of connected peers and the parallel reference resolver), the selection
of components by generation, and the search for a free name.

Where the code does not do what its comments or callers expect, the model follows the code, and the
theorem says exactly when the expectation holds:

| expectation | holds exactly when | theorem |
|---|---|---|
| `latestSavePath` is the newest live version | nothing was removed since the last save or amend | `LatestPath.LatestSavePathCorrectIff` |
| both delete modes of `branchToVersionInfos` list equally many versions | nothing was removed before an amend (only amends reset `deleteAtEnd`) | `ReplayAgreement.ModesAgreeOnLengthIff` |
| both modes list the same paths | nothing was removed before an amend, and no version survives or the newest one was saved before the first removal | `ReplayAgreement.ModesAgreeOnPathsIff` |
| the event of a version delete names the newest version | the oldest version is the only one left | `Logbook.DeleteEventNamesOldest` |
| the rollback of a push undoes that push alone | nothing was written since, or nothing but copies of its op | `Logbook.RollbackUndoesPushIff` |
| a save keeps store, head and log together | the logbook returns no error; it refuses only after store and head have moved | `VersionRuns.SaveKeepsAgreementIff` |
| a removal keeps them together | some but not all versions are removed, or none | `VersionRuns.RemoveKeepsAgreementIff` |
| both sources of `DatasetLog` give one page | the offset is at least 0 and the limit at least -1 (the log panics otherwise), and the limit is not 0 or the offset past the end | `DatasetHistory.SourcesAgreeIff` |
| the cache after a save's event is a rebuild | the branch holds no remove or unpublish op | `CacheRuns.SaveKeepsSyncIff` |
| a generated name is a valid dataset name | no punctuation that comes where no word has begun is copied into it | `NameRules.GeneratedNameIsValidIff` |
| a reference survives its HTTP form | neither username nor dataset name is "at" | `HttpPath.HttpRoundTripIff` |
| a run, and whatever follows it without such a step, never has two requests to one peer in flight | no step deletes the channel of a request in flight (handlers of one peer that overlap can) | `ProfileExchange.RunDoublesIff` |

## Files

| file | models |
|---|---|
| `oplog.dfy`, `latest.dfy` | operations, the stack of live paths, well-formed logs; the backward scan for the newest path |
| `replay.dfy`, `agreement.dfy`, `listing.dfy` | `branchToVersionInfos` as a loop over a slice, how it agrees with the path stack, and what each write shows in its list |
| `writes.dfy`, `book.dfy` | the write methods as steps on a log; the logbook as an object with its events and rollbacks |
| `contentstore.dfy`, `versionruns.dfy`, `repository.dfy`, `datasetlog.dfy` | the store and its chains; store, head and log over runs; saving, removing, listing |
| `entries.dfy`, `dscache.dfy`, `convert.dfy`, `cacheruns.dfy` | cache entries and updates, the cache object, its rebuild, and both over runs |
| `lookups.dfy`, `rebuilds.dfy` | what is found in a cache, and what a rebuild contains |
| `refgrammar.dfy`, `parseerrors.dfy`, `httppath.dfy` | the reference language, its printers and parsers; what each error says of the text; HTTP paths |
| `names.dfy`, `namerules.dfy`, `phrases.dfy`, `availablename.dfy` | the word machine, what its names are, the names of phrases, and numbered names |
| `profiles.dfy`, `resolvers.dfy` | the two protocols as state machines under any schedule |
| `revisions.dfy` | components by generation |
| `prelude.dfy`, `dsref.dfy` | options, results, slices; references and version summaries |

A log is *well formed* when the counts of its ops stay within the live versions, amends find a version to
amend, and a commit names a run only right after that run's op, or one the log has not seen; it is
*paired* when every run op is directly followed by its commit. Theorems are about all well-formed logs
unless they say otherwise, and `Writes.RunsStayWellFormed` and `Writes.RunsStayPaired` say which writes
lead to such logs.

A Go panic on an index or slice bound is a value of the model (`None`, or an error named `Panicked`), so
that its absence is something to prove. Clocks, the network, the disk and what is inside a saved dataset
are parameters. A ghost function `depth` stands for content addressing: a version's address depends on
its contents, which name the version before it, so that no chain of versions returns to its start.

## Model

| member | source | states |
|---|---|---|
| OpLog.PathStackTotal | logbook/logbook.go:878-899 | The live paths can be collected without a slice panic exactly when every removal and amend stays within the live versions |
| OpLog.WellFormedStack | logbook/logbook.go:878-899 | Every well-formed log can be collected |
| LatestPath.LatestSavePathScan | logbook/logbook.go:948-968 | The backward loop computes the scan that the lemmas below are about |
| LatestPath.ScanFindsStackElement | logbook/logbook.go:948-968 | With c removals pending, c at least 1, on an amend-free log the backward scan returns the c-th element from the top of the forward stack |
| LatestPath.LatestSavePathValue | logbook/logbook.go:948-968 | On every amend-free well-formed log: the newest live version when no removal is pending, otherwise the deepest version just removed |
| LatestPath.LatestSavePathCorrectIff | logbook/logbook.go:948-968 | With paths written once, amends included: the scan returns the newest live version if and only if nothing was removed since the last save or amend |
| Replay.BranchToVersionInfos | logbook/logbook.go:1206-1277 | The loop over the item slice, with in-place marking, reversal and paging, computes the replay the lemmas are about, and panics exactly where it says |
| Replay.SetPublished | logbook/logbook.go:1238-1248 | Marking the n newest items one index at a time fails exactly when n exceeds the slice and otherwise sets those flags and no others |
| Replay.ReverseInPlace | logbook/logbook.go:1260-1264 | Swapping from the middle outwards reverses the slice |
| Replay.ItemsReplayable | logbook/logbook.go:1206-1258 | On every well-formed log, in either mode, no index or slice leaves its bounds: the items are never fewer than the live versions |
| Replay.MergeFollowsRun | logbook/logbook.go:1213-1226 | On well-formed logs a commit is folded into the newest item exactly when it directly follows the op of its own run |
| ReplayAgreement.ItemPathsAreStack | logbook/logbook.go:878-899 | With each run op followed by its commit, the item paths are the stack of the forward replay, plus the blank of a run still to be committed |
| ReplayAgreement.ItemsListLivePaths | logbook/logbook.go:1206-1277 | On paired logs `branchToVersionInfos` with collapsed deletes lists, newest first, exactly the paths of `addReferencedPaths` |
| ReplayAgreement.PushesOnlyPublish | logbook/logbook.go:1233-1258 | On any log and in either mode, erasing every push and unpublish op changes published flags only, and no path |
| ReplayAgreement.LazyKeepsRemoved | logbook/logbook.go:1206-1258 | On every well-formed log, without collapsing, the items are the collapsed ones and one per version ever removed, and the removals since the last amend wait for the end |
| ReplayAgreement.ModesAgreeOnLengthIff | logbook/logbook.go:1206-1258 | On every well-formed log the lengths of both modes differ by what was removed before an amend, so they agree if and only if that is nothing, and always without amends |
| ReplayAgreement.RemovalsLeaveOldest | logbook/logbook.go:1206-1258 | Where nothing was removed before an amend, the survivors of removals are the oldest versions in place, from before the first removal, then versions saved later |
| ReplayAgreement.ModesAgreeOnPathsIff | logbook/logbook.go:1206-1258 | On paired logs, amends included, whose items have distinct paths, both modes list the same paths if and only if nothing was removed before an amend, and no version survives or the newest survivor was saved before the first non-empty removal |
| ReplayAgreement.RemovalsLastAgree | logbook/logbook.go:1206-1258 | On every well-formed log, amends and runs without commits included, in which nothing is added once a version was removed, both modes list the same paths |
| OpLog.FirstRunRelation | logbook/logbook.go:1139-1146 | The run a commit names is what follows the prefix in the first relation that has it, and empty when none has |
| Listing.SaveShows | logbook/logbook.go:1206-1277 | A save without a run of its own puts one item in front of the newest-first list, with its path, time, title and body size, not published |
| Listing.RunShows | logbook/logbook.go:1206-1277 | A run puts an item without a path in front, with the ID, status, start and duration of the run |
| Listing.SaveWithRunShows | logbook/logbook.go:567-585 | A save written with its run puts one item in front that tells of both |
| Listing.AmendShows | logbook/logbook.go:1225-1227 | An amend replaces the newest item |
| Listing.DeleteShows | logbook/logbook.go:1228-1233 | A removal of n versions takes n items off the front |
| Listing.PushShows | logbook/logbook.go:1238-1248 | A push of n versions sets the published flag of the n newest items to true, an unpublish to false, and nothing else changes |
| Listing.PublishedIff | logbook/logbook.go:1238-1248 | On every well-formed log, told from the ops alone: an item is published if and only if some push reached it and no unpublish, amend or removal has touched it since |
| Writes.PermittedKeepsWellFormed | logbook/logbook.go:626-670 | Every write whose counts fit and whose run is fresh keeps a log well formed |
| Writes.RunsStayWellFormed | logbook/logbook.go:555-740 | So does every run of such writes |
| Writes.RunsAreReplayable | logbook/logbook.go:555-740 | Every log reached from a new branch by any run of such writes replays without a panic in all three replays |
| Writes.ReusedRunBreaksReplay | logbook/logbook.go:1213-1230 | Fresh run IDs are needed: a log that names one run in two saves panics in the item replay though its live paths can be collected |
| Writes.RunsStayPaired | logbook/logbook.go:567-585 | When runs are written together with their save alone, every run op stays directly followed by its commit |
| Logbook.RollbackUndoesPushIff | logbook/logbook.go:745-803 | After a push or unpublish, any further writes to the branch and the rollback, the book is what those writes alone make of it if and only if they wrote nothing, or nothing but copies of the push's op |
| Writes.RollbackKeepsWellFormed | logbook/logbook.go:773-794 | Dropping the newest op keeps a log well formed |
| Logbook.DeleteEventNamesOldest | logbook/logbook.go:702-741 | On paired logs with distinct paths where nothing was removed before an amend, a version delete publishes one event with the path saved first and the number of live versions as its index, or none when no version is left; so it names the newest live version if and only if that is the only one left |
| Logbook.DeleteEventTells | logbook/logbook.go:722-740 | The time and body size it carries are those of the last item of the newest-first list |
| Logbook.WithDatasetFinds | logbook/logbook.go:489-508 | A replaced dataset log is found again under its ID and every other log is untouched |
| Logbook.BranchAfterWrite | logbook/logbook.go:489-516 | After a write, lookups with the write check find the new branch for this dataset and what they found before for others |
| Logbook.Refusals | logbook/logbook.go:489-516 | What each write is refused for, in order: no log, not one branch, an empty branch, another author, a run that is not its own |
| Logbook.RefusedChangesNothing | logbook/logbook.go:555-741 | A refused write changes nothing and publishes nothing |
| Logbook.OthersStay | logbook/logbook.go:489-516 | No write changes another dataset, nor one whose branch another author began |
| Logbook.AppendDropsIff | logbook/types.go:78-84 | The ops a branch log drops are those of authors, datasets and access control |
| Logbook.Book.Append | logbook/types.go:78-92 | An op of a model that belongs on a branch is appended, any other is dropped, and the index returned is that of the newest op |
| Logbook.Book.WriteVersionSave | logbook/logbook.go:555-598 | The whole effect of a save: the refusals in their order, the run and commit ops appended, the book otherwise unchanged, the event published |
| Logbook.Book.WriteTransformRun | logbook/logbook.go:601-623 | The whole effect of a run: one op, nothing published |
| Logbook.Book.WriteVersionAmend | logbook/logbook.go:672-699 | The whole effect of an amend: one op, nothing published |
| Logbook.Book.WriteVersionDelete | logbook/logbook.go:702-741 | The whole effect of a delete: one op, then an event made from the last item of the reversed list, or none when no item is left |
| Logbook.Book.WriteRemotePush | logbook/logbook.go:745-803 | The whole effect of a push, and a rollback bound to this book and dataset if and only if it succeeded |
| Logbook.Book.WriteRemoteDelete | logbook/logbook.go:806-857 | The same for an unpublish |
| Logbook.Book.WriteDatasetDelete | logbook/logbook.go:518-551 | The whole effect of deleting a dataset: a remove op on the dataset log and its event |
| Logbook.AllWritesAppend | logbook/logbook.go:555-857 | Any run of writes by the author appends its ops to the one branch and changes nothing else in the book |
| Logbook.Rollback.Call | logbook/logbook.go:768-794 | The first call drops the newest op of the branch, whatever it is; later calls change nothing and return the first call's outcome again |
| Logbook.RollbackRestoresBook | logbook/logbook.go:745-803 | So a push or unpublish followed at once by its rollback leaves the whole book as it was |
| ContentStore.HistoryDescends | base/log.go:95-120 | The versions met walking back from a head are all different |
| ContentStore.HistorySuffix | base/log.go:95-120 | Walking on from the k-th version of a history gives the rest of that history |
| ContentStore.HistoryLocal | base/remove.go:98-137 | A history does not change when only other paths of the store do |
| VersionRuns.SaveKeepsAgreementIff | base/save.go:103-117 | A save on the current head keeps chain, head and log in agreement if and only if the logbook returns no error: a run mismatch or a log of another author is refused after store and head have moved |
| VersionRuns.RemoveKeepsAgreementIff | base/remove.go:74-157 | A removal of n, -1 included, keeps them in agreement if and only if n is at least 0 and below the number of live versions |
| VersionRuns.RemovalCutsChain | base/remove.go:98-141 | A partial removal deletes the n newest live versions from the store and no others, leaves the rest live, and the copies in agreement |
| VersionRuns.RunsAgree | base/save.go:103-117 | Over every run of saves on the head, partial removals, runs, pushes and unpublishes the chain from the head is, newest first, the stack replay of the log |
| VersionRuns.RunsFromNewAgree | base/save.go:103-117 | and they do over every such run that starts with nothing stored, no head and a new branch |
| VersionRuns.ResolvedHeadAgreesIff | logbook/logbook.go:908-968 | The head the logbook resolves is the ref store's if and only if nothing was removed since the last save |
| Repository.Repo.SaveDataset | base/save.go:22-118 | The whole effect of a save in its order, refusals included; on success on the head it is the save step of the runs |
| Repository.Repo.RemoveNVersionsFromStore | base/remove.go:74-157 | The whole effect of a removal in its order, with each refusal and its condition; where the copies agree nothing of -1 or more is refused, and success from the head is the removal step of the runs |
| Repository.Repo.DeleteBack | base/remove.go:98-137 | The countdown deletes exactly the n newest stored versions (all with -1) and stops at the first version kept, or at the last one deleted |
| Repository.Repo.RewindDatasetRef | base/remove.go:169-201 | The head moves to the older path, unless the name is invalid or there is no reference to move |
| Repository.RemovalSucceeds | base/remove.go:74-157 | Where the copies agree the head is stored and the logbook refuses no count of -1 or more, and below the number of live versions the copies agree afterwards |
| DatasetHistory.StoredHistoricalDatasets | base/log.go:84-133 | The walk sends the page offset..offset+limit of the history from the head, and ends without a timeout exactly when the page is full or the chain is complete |
| DatasetHistory.DatasetLog | base/log.go:21-79 | The logbook answers when it knows the dataset, the walk otherwise, with their errors: a walk that is not done is a timeout |
| DatasetHistory.WalkListIsPage | base/log.go:95-120 | The countdowns of offset and limit along a history take the slice they should |
| DatasetHistory.SourcesAgreeIff | base/log.go:21-133 | Where log and chain agree and the log is paired, the log gives a page if and only if the offset is at least 0 and the limit at least -1, and panics otherwise; the walk then gives the same page if and only if the limit is not 0 or the offset is past the end; for a positive limit the page is that slice of the newest-first history |
| CacheEntries.ReworkKeepsOrder | dscache/mutator.go:27-63 | An update keeps the entries it keeps in the order they had, each in its updated form |
| CacheEntries.ReworkKeepsAll | dscache/mutator.go:27-63 | and drops only the entries it means to drop |
| CacheEntries.ReworkKeepsSorted | dscache/convert.go:64-72 | Updates that leave profile and name alone keep a cache sorted by username and name |
| CacheEntries.ReworkMultiset | dscache/mutator.go:27-63 | Caches with the same entries in any order are updated to caches with the same entries |
| CacheEntries.ToInt32KeepsLowBits | dscache/convert.go:107-115 | A count stored in 32 bits differs from the original by a multiple of 2^32 |
| DsCache.Dscache.LookupByName | dscache/dscache.go:207-234 | Finds the first entry of the profile of the first user with the name, with the errors of the original |
| DsCache.Dscache.BuildVector | dscache/mutator.go:57-62 | Prepending from the back builds the list in its own order |
| DsCache.Dscache.CopyUserAssociationList | dscache/mutator.go:8-23 | The users are copied unchanged, in order |
| DsCache.Dscache.CopyReferenceListWithReplacement | dscache/mutator.go:27-63 | The entries are copied in order, matching ones replaced or left out |
| DsCache.Dscache.UpdateChangeCursor | dscache/dscache.go:319-360 | The new root after a commit event; nothing without a cache |
| DsCache.Dscache.UpdateDeleteDataset | dscache/dscache.go:363-383 | The new root after a delete event |
| DsCache.Dscache.UpdateCreateLink | dscache/dscache.go:386-416 | The new root after a link event |
| DsCache.Dscache.Handler | dscache/dscache.go:240-269 | Every commit, delete and link event leads to the root its update makes; the name-init event is not modelled |
| DsCache.UpdatesKeepOrder | dscache/dscache.go:319-416 | Users and sort order survive every event, and entries an event does not mean keep every carried field |
| DsCache.UpdatesInPlace | dscache/dscache.go:319-416 | Cursor and link updates act on each entry in its place |
| DsCache.DeleteFilters | dscache/dscache.go:363-383 | A delete keeps, in order, exactly the entries of all other datasets |
| DsCache.LookupAfterCommit | dscache/dscache.go:207-360 | After a commit event a name finds the same dataset, with the new head if and only if the event was for it |
| CacheLookups.LookupOfUser | dscache/dscache.go:207-234 | A name is looked up in the profile of the first user of that username, and found at the first entry there |
| CacheLookups.LookupOfStranger | dscache/dscache.go:207-234 | Without such a user, in the profile the reference came with, and an unknown username without one |
| CacheLookups.LookupFindsEntry | dscache/dscache.go:207-234 | Where users and profiles belong together one to one, every entry is found again by the reference it is sorted by |
| CacheLookups.StrLessIff | dscache/convert.go:64-72 | Strings are ordered by the first character they differ in, a prefix first |
| CacheLookups.UsernameIsLast | dscache/convert.go:59-63 | The username an entry is sorted by is the last its profile was given |
| CacheLookups.SortedAscends | dscache/convert.go:59-72 | In a sorted cache "username/name" ascends |
| CacheLookups.LinkReaches | dscache/dscache.go:386-416 | A link event sets the directory of the entry with its ID, or, without an ID, of every entry of its name if its user is the one of this cache |
| CacheLookups.SaveIsShown | dscache/dscache.go:319-360 | After a save's event a lookup shows the saved path and the version's details, but for those that are 0, where the earlier ones stay |
| CacheConvert.ConvertHistoryToIndexAndRef | dscache/convert.go:245-265 | The loop over the ref slice computes index and ref, counting every op that is not a removal, and panics exactly where it says |
| CacheConvert.ConvertDatasetHistoryToDsInfo | dscache/convert.go:209-243 | One info, or none for deleted datasets and those without one branch |
| CacheConvert.ConvertLogbookUserToDsInfoList | dscache/convert.go:196-207 | The infos of a user, in order |
| CacheConvert.ConvertLogbook | dscache/convert.go:153-170 | The infos of the book, passing over empty user logs |
| CacheConvert.SortInfos | dscache/convert.go:64-72 | A sorted arrangement of the same infos |
| CacheConvert.BuildDscache | dscache/convert.go:56-150 | A build is a rebuild: the sorted entries of the infos of the logbook, every field of every entry stated, and it exists exactly when no log panics |
| CacheConvert.SortedCoresUnique | dscache/convert.go:64-72 | With distinct references there is one sorted order |
| CacheConvert.RebuildsAgree | dscache/convert.go:56-150 | so any two rebuilds of one logbook hold the same cores in the same order |
| CacheContents.BookInfosIff | dscache/convert.go:153-243 | A rebuild has an info for a dataset if and only if a user with a log holds it, it is not deleted and has one branch; its profile, its last name and its newest ref are stated |
| CacheContents.RefsAreLiveVersions | dscache/convert.go:245-265 | On a branch of saves and removals the refs that remain are the first op and the live versions in order |
| CacheContents.RebuiltHeadIsNewest | dscache/convert.go:245-265 | so a rebuild shows the newest live version, and the number of live ones |
| CacheContents.UnpublishCountsAsRemoval | dscache/convert.go:245-265 | An unpublish of n takes as many refs off as a removal of n, and a push adds an empty one |
| CacheContents.RenameShows | dscache/convert.go:209-222 | A rename changes the name in a rebuild and nothing else |
| CacheRuns.BookInfosAfter | dscache/convert.go:196-243 | When one dataset log changes, a rebuild changes in the info of that dataset alone |
| CacheRuns.RefStackLength | dscache/convert.go:245-265 | The index a rebuild gives falls short of the number of ops by what removals take off, which is nothing if and only if there are none |
| CacheRuns.SaveKeepsSyncIff | dscache/dscache.go:319-360 | After a save's event on a listed dataset the cache is a rebuild of the logbook if and only if the branch holds no remove or unpublish op |
| CacheRuns.DeleteKeepsSync | dscache/dscache.go:363-383 | After a dataset delete's event the cache is a rebuild of the logbook |
| CacheRuns.RunsStayInSync | logbook/logbook.go:577-597 | Over every run of saves, with or without transform runs, on branches without removals and of dataset deletes the cache stays a rebuild |
| CacheRuns.BuildFromLogbook | dscache/convert.go:23-54 | A cache built from a book with unique IDs is a rebuild of it, where such a run can start |
| CacheRuns.RunsMatchRebuild | dscache/convert.go:196-265 | and holds the same InitID, ProfileID, Name, TopIndex, CursorIndex and HeadRef, entry by entry, as any new rebuild |
| RefGrammar.FindConcreteIsMatch | dsref/parse.go:41-50 | The search finds a match of the concrete expression whenever there is one; every match has its ID and network, and a hash that begins the one found |
| RefGrammar.Parse | dsref/parse.go:77-123 | The imperative parser computes the parse the lemmas are about, every error and error position included |
| RefGrammar.ParseConcrete | dsref/parse.go:99-123 | Its second half, from the concrete portion to the final checks |
| RefGrammar.ParseHumanFriendly | dsref/parse.go:126-159 | The same for references of username and name |
| RefGrammar.ParsesPrinted | dsref/parse.go:77-123 | Every grammatical reference is read back from its printed form |
| RefGrammar.ReadsWhatItPrints | dsref/ref.go:27-66 | Every text that parses is the printed form of the reference it parses to, which is grammatical |
| RefGrammar.ParseIffPrinted | dsref/parse.go:68-123 | A text parses to a reference if and only if the reference is grammatical and prints to the text |
| RefGrammar.ParsePeerIff | dsref/parse.go:73-123 | The peer parser accepts exactly that, and a username alone |
| RefGrammar.ParseHumanIff | dsref/parse.go:126-159 | The human-friendly parser accepts exactly the references without identifier and path |
| RefGrammar.BadCaseIff | dsref/parse.go:111-123 | A reference is returned with the error that callers tolerate if and only if its name has an upper-case letter, it is grammatical otherwise, and it prints to the text |
| RefGrammar.BadCaseHumanIff | dsref/parse.go:148-159 | The same for references of username and name |
| ParseErrors.EmptyRefIff | dsref/parse.go:77-84 | The reference is empty if and only if the text is |
| ParseErrors.NeedSeparatorIff | dsref/parse.go:86-97 | A separator is missing if and only if the text is one name; the peer parser accepts that |
| ParseErrors.NoDatasetNameIff | dsref/parse.go:228-260 | The dataset name is missing if and only if the text is a name, a slash, and no letter after it |
| ParseErrors.UnexpectedCharIff | dsref/parse.go:126-144 | The human-friendly parser returns that error if and only if a name is followed by something that is no slash and no name character; the others never do |
| ParseErrors.StrayIsReported | dsref/parse.go:91-94 | They report its position and the character instead |
| ParseErrors.NotHumanFriendlyIff | dsref/parse.go:145-151 | A text is not human-friendly if and only if an "@" follows its alias, or begins it where there is none |
| ParseErrors.FlawIff | dsref/parse.go:262-285 | An unknown network, a bad base32 identifier or a bad base58 hash is reported if and only if the text after the alias begins with a concrete reference that has this flaw, and none of those before it |
| ParseErrors.UnexpectedAtMeans | dsref/parse.go:91-115 | A position reported is that of the character reported; what is before it is what was read: a name, an alias with no concrete reference after it, or the longest reference |
| ParseErrors.UnexpectedAtHumanIff | dsref/parse.go:148-156 | The human-friendly parser reports a position if and only if an alias ends there, or begins nothing, and no "@" follows |
| ParseErrors.Alphabets | dsref/parse.go:35-50 | The alphabets of identifiers and hashes, character by character |
| ParseErrors.Lengths | dsref/parse.go:35-50 | How long names, identifiers and hashes may be, and what they are made of |
| HttpPath.IndexIsFirst | lib/api.go:146-151 | The index used for the query and the replacement is the first occurrence, -1 if and only if there is none |
| HttpPath.HttpRoundTripIff | lib/api.go:138-154 | "/user/name/at" with the path, and any query, reads back as the reference if and only if neither username nor name is "at" |
| HttpPath.AliasRoundTripIff | lib/api.go:138-154 | "/user/name", with any query, reads back if and only if the username is not "at" |
| NameGenerator.Machine.FlushWord | dsref/generate.go:74-107 | The whole effect of a flush: nothing for an empty word; a cut first word or nothing, and the exit state, when it does not fit; else the word, with an underscore between letters or digits |
| NameGenerator.Machine.Read | dsref/generate.go:136-270 | The whole effect of one character in each of the seven states |
| NameGenerator.ReadsOne | dsref/generate.go:136-270 | Every step keeps the machine's variables to what the text read so far stands for by its neighbour rules; after the exit state nothing is added |
| NameGenerator.ConvertWordsStateMachine | dsref/generate.go:62-274 | The machine's output is the text translated character by character according to each one's neighbours, in pieces, shortened to the bound |
| NameRules.ShortenKeeps | dsref/generate.go:92-107 | The output is the longest run of whole pieces within the bound; only a first piece is ever cut |
| NameRules.NameIsPrefix | dsref/generate.go:74-107 | A name is never longer than the bound, begins the unbounded name, and is all of it if and only if that fits |
| NameRules.NameKeepsLetters | dsref/generate.go:62-274 | The letters and digits of the unbounded name are the text's ASCII ones in order and in lower case, and a name has a prefix of them |
| NameRules.NameCharsIff | dsref/generate.go:146-270 | A name has name characters only if and only if no punctuation that comes where no word has begun turns up in the part the bound leaves; for the unbounded name, if and only if there is none |
| NameRules.FixedPointIff | dsref/generate.go:62-274 | A text is its own name if and only if it is settled, a condition on each character and its neighbour, and within the bound |
| NameRules.PlainNameIsTidy | dsref/generate.go:62-274 | The name of letters, digits and isolated separators is words and numbers in lower case joined by single separators, cut or not |
| NameRules.TidyIsSettled | dsref/generate.go:62-274 | Such a name is settled, and plain input itself |
| NameRules.NamingTwice | dsref/generate.go:62-274 | Naming is idempotent on such input |
| NameRules.GenerateNameFailsIff | dsref/generate.go:24-30 | An empty name is indexed if and only if the text has no printable ASCII character, or the bound is 0 |
| NameRules.GeneratedNameIsValidIff | dsref/generate.go:12-32 | With a valid prefix of at most 144 characters less the bound, the result is a valid dataset name that starts in lower case if and only if no such punctuation turns up in the name |
| NameRules.CleanTextIsValid | dsref/generate.go:12-32 | A check on the text alone: without punctuation where no word begins the name is valid under every bound, and where the whole name is within the bound if and only if |
| NameRules.TildeIsCopied | dsref/generate.go:158-160 | A leading tilde is copied, and the result is not a valid name |
| Phrases.PhraseIsNamed | dsref/generate.go:62-274 | A text of words and numbers, next to each other in camel case or with blanks or punctuation between them: its name is the words in lower case, with an underscore where nothing stood between them, and what each separator becomes otherwise |
| Phrases.PhraseIsCut | dsref/generate.go:92-107 | Under a bound it is as many whole words as fit; a first word that does not fit is cut |
| Phrases.CapitalsBetween | dsref/generate.go:146-235 | A run of capitals between two capitalised words is a word of its own |
| Phrases.AnnualTPSReport | dsref/generate.go:109-118 | "AnnualTPSReport" is named "annual_tps_report" |
| Phrases.PrefixIsAdded | dsref/generate.go:24-32 | The prefix is added if and only if the text begins with a blank or a digit |
| Phrases.IgnoredVanish | dsref/generate.go:128-135 | Characters that are not printable ASCII leave no trace, wherever they stand |
| Phrases.LowerCase | dsref/generate.go:136-270 | Only the letters A to Z change |
| Phrases.PunctuationMarks | dsref/generate.go:276-281 | What punctuation is |
| ProfileExchange.RunsKeep | p2p/profile_service.go:82-231 | Every run keeps the mutex with the one thread that holds it, and every channel with its peer and its goroutine |
| ProfileExchange.ClosedOnceByItsFetcher | p2p/profile_service.go:176-231 | In every run a channel has one goroutine that closes it, at most once: closed if and only if that goroutine has returned |
| ProfileExchange.ReleasedAfterFetch | p2p/profile_service.go:153-231 | In every run no caller and no disconnect handler gets past its receive before the request to its peer has ended |
| ProfileExchange.MutexExcludes | p2p/profile_service.go:176-200 | In every run at most one thread holds the mutex |
| ProfileExchange.RunsSeeRight | p2p/profile_service.go:82-200 | In every run, while a thread holds the mutex the map holds what the thread has read or written under it |
| ProfileExchange.StepTracksIff | p2p/profile_service.go:82-104 | A step keeps the map holding the channel of every request in flight if and only if it does not delete one of them |
| ProfileExchange.RunTracksIff | p2p/profile_service.go:82-231 | All along a run the map holds the channel of every request in flight if and only if no step of the run deletes one of them |
| ProfileExchange.OneInFlight | p2p/profile_service.go:176-200 | While the map holds the channel of every request in flight, no two requests to one peer are in flight |
| ProfileExchange.RunDoublesIff | p2p/profile_service.go:82-231 | From no point of a run, the last included, can it go on, without deleting the channel of a request in flight, until two requests to one peer are in flight, if and only if no step of the run deletes one |
| ProfileExchange.DropSendsTwo | p2p/profile_service.go:82-200 | Any step that deletes the channel of a request in flight can be followed by two requests to the peer in flight |
| ProfileExchange.OneRequestPerPeer | p2p/profile_service.go:82-231 | In every run whose disconnect handlers of one peer do not overlap, at most one request per peer is in flight |
| ProfileExchange.OverlapSendsTwo | p2p/profile_service.go:82-104 | Handlers of one peer that overlap can make such a step: a run in which they do, with two requests to the peer in flight at its end |
| ProfileExchange.NoDeadlock | p2p/profile_service.go:82-231 | In every run, while some thread has not returned some thread can act |
| ProfileExchange.SchedulesEnd | p2p/profile_service.go:82-231 | Once nothing new begins, every schedule ends within the work left, which bounds its length |
| Resolvers.RunsKeep | dsref/resolve.go:38-85 | Over every schedule, until it returns, the caller's reference is untouched and every goroutine works on the reference first given |
| Resolvers.CanReturnIff | dsref/resolve.go:38-85 | Some schedule returns this with this reference left to the caller if and only if it is a successful resolver's source and reference, a hard error with the reference untouched, or not-found from all |
| Resolvers.NotFoundIff | dsref/resolve.go:72-82 | A return is not-found if and only if every resolver finds nothing |
| Resolvers.NeverStuck | dsref/resolve.go:38-85 | With at least one resolver no schedule gets stuck before the return |
| Resolvers.StepWorks | dsref/resolve.go:38-85 | and every step uses up work, so that every schedule ends |
| Resolvers.ResolveInSequence | dsref/resolve.go:96-114 | The sequential loop hands the reference from one resolver to the next and stops at the first that does not return not-found |
| Resolvers.SequenceIsFirst | dsref/resolve.go:88-114 | With resolvers that touch the reference on success alone, it returns what the first such resolver makes of the reference given, and a return the parallel one allows too |
| Resolvers.SequenceOfOne | dsref/resolve.go:96-114 | One resolver alone: its outcome, without a source unless it succeeded; nil finds nothing |
| Resolvers.SequenceOfTwo | dsref/resolve.go:96-114 | One sequence after another: the second is asked if and only if the first finds nothing, with the reference the first left |
| Revisions.Sel | base/revisions.go:41-100 | The whole effect of one look at a version: the counter, and the component copied when the counter gets to zero |
| Revisions.SelectAll | base/revisions.go:23-29 | One round over the revisions, and whether every counter is at zero |
| Revisions.LoadRevs | base/revisions.go:15-39 | The result is what the whole history would give; it fails if and only if a version cannot be loaded before every counter has been at zero |
| Revisions.NothingAfterAllMet | base/revisions.go:23-32 | Once every counter has been at zero nothing more is picked, so stopping early loses nothing though counters go below zero |
| Revisions.EachPicksItsGeneration | base/revisions.go:15-100 | Among revisions for different components each picks the component of the gen-th version that has it, and nothing if and only if fewer have it or the generation is not positive |
| Revisions.OthersStayUnset | base/revisions.go:41-48 | A component that no revision names, the whole-dataset field included, is never set |
| Revisions.NamesSelect | dsref/rev.go:63-81 | The name of every component selects that component, but for the commit, which has no name; the whole dataset and the rendered page are no component |
| Revisions.NameSelectsNewest | base/revisions.go:15-100 | Asked for by its name alone, a component is that of the newest version that has it |
| AvailableName.ReadsDecimal | base/dataset_prepare.go:122-132 | Printed numbers are read back |
| AvailableName.DecimalBegins | base/dataset_prepare.go:122-132 | and have no leading zero |
| AvailableName.NumberedDiffer | base/dataset_prepare.go:122-132 | so numbered names differ |
| AvailableName.TryingUsesUp | base/dataset_prepare.go:122-132 | Each name tried and in use leaves fewer names in use to try |
| AvailableName.GenerateAvailableName | base/dataset_prepare.go:119-132 | With finitely many names in use the loop ends, with the least free number from 2 on |
| AvailableName.LeastFreeIsOne | base/dataset_prepare.go:119-132 | That number is unique, and at most two more than the number of names in use |
| AvailableName.NumberedIsName | base/dataset_prepare.go:119-132 | A numbered dataset name within 144 characters is a dataset name |

## Left out

- Unicode normalisation and trimming in `GenerateName`: the text is taken as already normalised and trimmed.
- Repository.Repo.SaveDataset: merging the changes with the previous version, format changes, inferred values and the writing of the files are one parameter, the created version or none.
- Repository.Repo.RemoveNVersionsFromStore: a store that fails to delete a path, and the timeout for versions that are not local, which the original treats like a missing version, and lookup errors of the logbook other than an unknown dataset are not modelled; removing a negative number reaches the log as it does in the original (base/remove.go:152) and is proved to break the agreement.
- Repository.Repo.RewindDatasetRef: the refusals for a different username, profile or name; the one caller changes the path alone.
- Logbook.Book.WriteRemotePush: the log of one branch that is returned, and the rollback when it cannot be made, are not modelled.
- Logbook.Book.WriteRemoteDelete: the same.
- Negative sizes in a log: Go's reslicing within a slice's capacity is taken as a panic.
- Logbook.Book.WriteVersionSave: saving the book to disk, signatures and encryption always succeed; an ID is looked up among dataset logs only.
- DatasetHistory.DatasetLog: commit messages, the local flag and the log reconstructed in the background are not modelled; a walk that cannot load a version ends in its timeout.
- CacheConvert.BuildDscache: the list of refs and working directories merged into a build (dscache/convert.go:172-193) is not modelled; the details of each version are a parameter.
- CacheConvert.SortInfos: `sort.Slice` is modelled by its result, a sorted arrangement of the same infos; where two infos have one key the original's choice is not fixed either.
- CacheRuns.SaveKeepsSyncIff: for logs of up to 2^31 ops; beyond that the int32 index of a cache wraps around.
- The cache after version deletes: the event names the oldest version (`Logbook.DeleteEventNamesOldest`), so no agreement is stated through it. Runs, pushes and amends publish no event, so the cache is stale until the next save.
- DsCache.Dscache.Handler: the name-init event and its `updateInitDataset` (dscache/dscache.go:271-316), which copies as many refs as there are users, and dataset renames, which the cache does not handle (a rebuild shows them, `CacheContents.RenameShows`), are not modelled.
- FlatBuffers encoding: a table is its fields; that a scalar equal to its default is not written, so that an earlier value stays, is modelled (`CacheEntries.Overwrite`).
- ProfileExchange.RunsKeep: the protocol check before a request (p2p/profile_service.go:154-163), contexts and the events published are not modelled; a request in flight always ends.
- Resolvers.CanReturnIff: cancellation is not modelled, and a resolver is a function of the reference it is given. Goroutines still sending when the resolver has returned stay blocked, as in the original.
- Revisions.LoadRevs: the revisions are different objects, as the parser of revisions makes them; one object listed twice is not modelled. The body is its path.
- NameGenerator.ConvertWordsStateMachine: the maximum length is a parameter, 44 in the original.
- AvailableName.GenerateAvailableName: the resolver decides by username and name and leaves both alone, as every resolver of the repository does; a hard error counts as a name in use, as in the original.
- `changes/`, `fsi/`, `event/`, the command line, the HTTP and RPC servers and the configuration: conversions and plumbing without state of their own to relate.
