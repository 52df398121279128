# Verification model of the `github_preview` engine

`github_preview` is a Caddy middleware that finds the newest GitHub Actions build of a pull request or
branch, keeps its zip on disk, and serves files from it.  This project models its engine in Dafny and
proves what it promises.

* `LruSpec`, `LruCacheFs`, `LruConcurrent`: the in-memory read cache.  A class over linked heap nodes
  refines a list of names; a theory of whole traces says which names are cached; a step machine covers
  any number of interleaved opens.
* `Timestamps`, `Github`: choosing the run and the artifact, and why sorting timestamps as strings is
  sorting by time.
* `ByteSize`: the byte-size and integer parsers, with int64 wrap-around.
* `Archive`: the bounded download, its file effects and its handles.
* `Caches`, `ArtifactRecency`: the metadata and artifact caches as classes; the artifact cache's
  timestamps refine the same LRU list, one unit per artifact.
* `PreviewSpec`, `PreviewRuns`, `PreviewTheorems`, `Registrations`, `PreviewHistory`: the handler as a
  state machine over metadata, artifacts, registrations, disk and handles; its invariant; and its
  theorems over whole serialised runs.
* `PreviewLaws`: what each operation of the handler leaves behind, table by table, said without the functions
  that the operations are built from.
* `SharedArtifact`, `StaleListing`, `RefreshRetries`: runs that break promises of the handler.
* `Interleaving`: resolutions of one artifact whose lookups, downloads and stores overlap in any order.
* `Preview`: the handler as a class whose methods update the caches step by step.  Each method carries
  out one step of `PreviewSpec` and keeps the invariant.
* `Refresh`: the fine-grained protocol between background refreshes and shutdown.
* `Wrappers`, `Sets`: an option type, and picking an element of a set.

`dafny verify dfyconfig.toml` checks everything.

## Assumptions

* A mutex-guarded section is one atomic step.  The base file system of a read cache never changes, as a
  zip does not.
* `maxArtifacts >= 1`: `Provision` replaces 0 by 50 (modules/github_preview/handler.go:175).  The eviction
  loop at modules/github_preview/cache.go:127 does not end for a bound below 1.
* Runs of the handler, except in `Interleaving` and `Refresh`, are serialised: each request, resolve, evict or prune is one step at one time, and
  times do not decrease.  Equal times are allowed; which of equally old artifacts is evicted is then the
  environment's choice.  Only the trace theorems of `ArtifactRecency` need strictly later accesses.
* GitHub's answers, download bodies, faults, zip validity and SHA-256 are arbitrary inputs or
  uninterpreted functions.

## Where the code falls short of what it promises

Each of these is proved, with the exact condition.

* A successful request can hand out a file system that has been cleaned up: a request answered from the
  caches does not register its key again (modules/github_preview/handler.go:353-367).  It happens if and only
  if the request is answered from the caches and the key's artifact was stored again for another key after the
  key was last registered (`RequestServesLiveIff`); seen from just before the request, if and only if it is
  answered from the caches while the key is not registered on the cached handle (`ServesLiveIffRegistered`).  Between requests a registration is dead also while its artifact is not
  cached (`RegistrationIsLiveIff`).  `SharedArtifactServedDead` is a run of five steps that ends with such a
  request.
* The readme says the branch listing never replaces a cached artifact with an older one, and the comment at
  modules/github_preview/github.go:125-126 that an exact head match was found by the head commit.  When the
  lookup by head commit fails, a listed run of that commit passes for an exact match as well, and the guard
  is skipped.  The listing replaces a newer cached artifact if and only if the listed run names the head
  commit and its older artifact can be had (`ListingReplacesNewerExactly`); `ListingReplacedNewer` is a run
  of two steps in which it does.
* The readme says that after a failed resolution the next one waits for the metadata TTL.  It does when a
  request waits for it (`ResolvesAreSpaced`).  With stale-while-revalidate on, a failed background refresh
  leaves the key stale (modules/github_preview/handler.go:532-537): of two requests within the TTL, the first
  served stale, the second is served stale and starts a refresh again, if none is running, if and only if no
  refresh has succeeded in between (`StaleUntilRefreshed`, `StaleAfterFailedRefresh`).
  `FailedRefreshIsRepeatedAtOnce` is a run in which that happens with no time passing.
* The handle of a downloaded artifact can be lost, neither cached nor cleaned up, when resolutions overlap: if
  and only if the artifact was stored over a cached copy of it (`EveryHandleIsSomewhere`), which takes two
  resolutions of it that both missed it (`OverwritesOnlyIfOvertaken`); `OverlapLosesAHandle` is such a run.
* At the largest int64 size limit, `maxSize + 1` wraps and nothing of the stream is read.  As an empty file is
  no zip, every download is then rejected (`LargestLimitReadsNothing`).
* A size beyond int64 wraps silently in `parseByteSize`: printing is undone if and only if the size fits
  (`ParseUndoesPrinting`).  "-0" is accepted as a non-negative integer (`NegativeIsRefused`).
* Shutdown's wait does not stop new refreshes: one can reach the torn-down caches if and only if a request
  starts it after the wait (`TornDownCachesReachedIffTriggered`), and it then leaves a file behind
  (`LateRefreshLeavesAFile`).

The comment at modules/github_preview/github.go:134-135 says that pull requests are resolved by branch and not
by head commit.  The code looks up the head commit first, and the model follows the code.

## Model

| member | source | states |
|---|---|---|
| LruSpec.CacheIsLongestFittingPrefix | modules/github_preview/lrucache.go:48-146 | after any trace of opens the cached names, in list order, are the longest prefix of the recency stack whose sizes fit the budget, without duplicates |
| LruSpec.LongestIsUnique | modules/github_preview/lrucache.go:106-123 | there is only one such prefix, so the description determines the cache |
| LruSpec.CachedIffReuseFits | modules/github_preview/lrucache.go:48-123 | a name is still cached if and only if the distinct cacheable files opened since its last open, itself included, fit the budget together |
| LruSpec.Inclusion | modules/github_preview/lrucache.go:88-110 | if every opened file fits the smaller budget, the smaller cache is always a prefix of the larger one |
| LruSpec.InclusionNeedsSmallFiles | modules/github_preview/lrucache.go:88-110 | a file between two budgets makes the larger cache lose a name that the smaller keeps |
| LruSpec.OpenedIsCachedIffFits | modules/github_preview/lrucache.go:88-104 | the name opened last is cached if and only if it is a file within the budget |
| LruSpec.NegativeBudgetCachesNothing | modules/github_preview/lrucache.go:88-91 | with a negative budget nothing is ever cached |
| LruCacheFs.LruCacheFs.Open | modules/github_preview/lrucache.go:48-104 | opening through the cache shows exactly what the base holds, errors and directories included; the linked list, table and byte count stay consistent, and the new contents are those of one atomic open |
| LruCacheFs.LruCacheFs.LookupLocked | modules/github_preview/lrucache.go:49-55 | the first critical section finds the entry if and only if it is cached, and moves it to the front |
| LruCacheFs.LruCacheFs.InsertLocked | modules/github_preview/lrucache.go:93-101 | the second critical section serves an entry that appeared meanwhile, and otherwise adds the new one |
| LruCacheFs.LruCacheFs.MakeRoom | modules/github_preview/lrucache.go:107-110 | eviction from the tail stops at the longest prefix of the list that leaves room |
| LruCacheFs.LruCacheFs.AddLocked | modules/github_preview/lrucache.go:106-123 | adding evicts from the cold end and puts the entry first, on pointers, table and byte count alike |
| LruCacheFs.LruCacheFs.TouchLocked | modules/github_preview/lrucache.go:125-146 | touching moves exactly that node to the front and keeps both pointer directions consistent |
| LruCacheFs.LruCacheFs.EvictLocked | modules/github_preview/lrucache.go:148-162 | evicting takes out exactly that node, its table entry and its bytes |
| LruCacheFs.LruCacheFs.Stat | modules/github_preview/lrucache.go:166-174 | stat through the cache agrees with stat on the base |
| LruCacheFs.LruCacheFs.WalksAgree | modules/github_preview/lrucache.go:18-38 | following next from head and prev from tail, however far, meets the same finite duplicate-free nodes, whose names are exactly the table's keys |
| LruCacheFs.OpenedIsCached | modules/github_preview/lrucache.go:48-104 | after an open the name is cached, with the base's data, if and only if it is a file within the budget |
| LruCacheFs.OpenAtomicRefinesOpen | modules/github_preview/lrucache.go:48-104 | one open moves the list of names as the LRU specification does |
| LruConcurrent.Linearizable | modules/github_preview/lrucache.go:48-104 | in every interleaving of opens the cache is well formed, within budget, and equal to what the opens, one by one in the order of their last critical sections, would leave |
| LruConcurrent.OpenersSeeTheBase | modules/github_preview/lrucache.go:48-104 | every opener whose own read did not fail gets what the base holds, and has exactly one place in that order |
| LruConcurrent.FaultsAreReported | modules/github_preview/lrucache.go:57-86 | an opener failed by its own read gets the error of that read |
| LruConcurrent.LogRespectsRealTime | modules/github_preview/lrucache.go:48-104 | an opener that finished before another began comes before it |
| Timestamps.StringOrderIsTimeOrder | modules/github_preview/github.go:238-244 | for UTC timestamps `YYYY-MM-DDTHH:MM:SSZ` string order is time order, in both directions |
| Timestamps.YearsInClosedForm | modules/github_preview/github.go:238-244 | the calendar behind it has the Gregorian number of leap days |
| Timestamps.MonthsFillTheYear | modules/github_preview/github.go:238-244 | its twelve months add up to the year |
| Github.SortedIsStableSort | modules/github_preview/github.go:239-244 | sorting leaves no run behind an older one and keeps ties in the server's order |
| Github.StableSortIsUnique | modules/github_preview/github.go:239-244 | a stable sort has one outcome, so any stable algorithm gives it |
| Github.SortedForgetsOrder | modules/github_preview/github.go:237-245 | with distinct run IDs the sorted list does not depend on the order the server listed them in |
| Github.NewerIsLater | modules/github_preview/github.go:238-244 | newest first is by real time, ties by run ID |
| Github.InsertInPlace | modules/github_preview/github.go:239-244 | swapping one run back in place inserts it behind every run it is not newer than |
| Github.SortRuns | modules/github_preview/github.go:237-245 | sorting in place leaves the sorted runs |
| Github.RunsForBranch | modules/github_preview/github.go:250-258 | the loop keeps exactly the runs of the branch, in order |
| Github.ForBranchMembers | modules/github_preview/github.go:250-258 | a run is kept if and only if it was listed and built for the branch |
| Github.FindArtifact | modules/github_preview/github.go:262-289 | the scan with early return finds what the recursive search finds |
| Github.ResolveArtifact | modules/github_preview/github.go:197-222 | sorting, filtering and scanning step by step makes the choice specified |
| Github.Resolve | modules/github_preview/handler.go:405-444 | so does resolving a key, for branches and pull requests |
| Github.FindsNewest | modules/github_preview/github.go:262-289 | on ordered runs the artifact found belongs to the newest run with a usable one; nothing is found only if none has one |
| Github.MatchIsUsable | modules/github_preview/github.go:274-286 | a match is the first listed artifact of the configured name that has not expired, and is missed only if there is none |
| Github.OfferIsFirstUsable | modules/github_preview/github.go:262-289 | a run offers its first usable artifact, and none only if it has none or its artifacts cannot be listed |
| Github.ChoosesNewest | modules/github_preview/github.go:197-222 | the build chosen is the newest usable one among the head commit's runs on the branch; only if there is none there, of the branch listing; nothing is chosen only if neither has one |
| Github.ServerOrderIsIgnored | modules/github_preview/github.go:197-245 | with distinct run IDs the choice is the same for every order of the server's lists |
| Github.AnswerIsChosen | modules/github_preview/handler.go:405-444 | a pull request or branch resolves to the build chosen for its head and branch, and passes for an exact match if the run names the head commit, whichever search found it |
| Github.PRKeyParses | modules/github_preview/handler.go:423-427 | a key stands for a pull request if and only if it is the prefix and its number, in any spelling the parser takes |
| Github.BranchResolves | modules/github_preview/handler.go:410-421 | a branch fails or is found, by its head and listing |
| Github.PullRequestResolves | modules/github_preview/handler.go:422-444 | an unknown pull request and one without a build fail; one with a build is found if open and closed otherwise |
| Github.NotOpenIffFoundClosed | modules/github_preview/handler.go:434-437 | a key is answered as closed only if its pull request is reported not open and has a build; never because GitHub fails, and never for a branch |
| ByteSize.ParseOfPrinted | modules/github_preview/config.go:173-197 | spaces, number, spaces, unit in any case, spaces: read as number times unit wrapped to int64, or a range error |
| ByteSize.AcceptedIsPrinted | modules/github_preview/config.go:173-197 | nothing of another shape is accepted |
| ByteSize.MultiplierIsPower | modules/github_preview/config.go:177-190 | each unit stands for its power of 1024 |
| ByteSize.ParseUndoesPrinting | modules/github_preview/config.go:173-197 | parsing gives back the printed size if and only if it is at most 2^63 - 1 |
| ByteSize.NegativeIsRefused | modules/github_preview/config.go:161-170 | a negative number is refused whatever the unit, zero excepted |
| ByteSize.AtoiOfNumber | modules/github_preview/config.go:161-170 | a signed run of digits is read as its value if that is a non-negative int64, and is a range error otherwise |
| ByteSize.TrimSpaceParts | modules/github_preview/config.go:174-174 | trimming takes off spaces at both ends and nothing else |
| Archive.SucceedsExactlyWhenAcceptable | pkg/archive/archive.go:91-138 | for every int64 limit but the largest, negative ones included, a download succeeds if and only if nothing fails, the stream fits, is a zip and has the digest; then the file is the whole stream |
| Archive.RejectedLeavesNothing | pkg/archive/archive.go:91-138 | a rejected download leaves no file at its path unless one was there that it never got to overwrite, and touches no other |
| Archive.RejectedIsCleaned | modules/github_preview/github.go:359-367 | a handle opened before a digest mismatch has been cleaned up once |
| Archive.OpenedAddsOneFile | modules/github_preview/github.go:316-376 | for every limit, a successful download adds one zip within the limit and one new handle |
| Archive.WholeUnlessLimitWraps | pkg/archive/archive.go:117-138 | the file that is written is the whole stream if and only if the limit is below the largest int64 or the stream is empty |
| Archive.LargestLimitReadsNothing | pkg/archive/archive.go:91-138 | at the largest int64 limit a download is opened if and only if nothing fails locally and the empty file is a zip with the digest asked for; so, as it is none, never |
| Archive.Storage.DownloadToFile | pkg/archive/archive.go:117-138 | creating, copying and undoing step by step has the effect specified on the disk as a value |
| Archive.Storage.Copy | pkg/archive/archive.go:124-125 | the copy loop delivers the whole stream up to the limit, however the stream is cut into pieces, and fails exactly when a read or write error is met |
| Archive.Storage.DownloadZip | pkg/archive/archive.go:91-114 | hashing or opening that fails removes the file |
| Archive.Storage.Download | modules/github_preview/github.go:316-376 | announced size first, digest last; a mismatch cleans up |
| Archive.Storage.Clean | pkg/archive/archive.go:109-112 | a cleanup closes its handle and removes its file |
| Caches.MetadataCache.Get | modules/github_preview/cache.go:44-54 | the entry if there is one, fresh if and only if it is not older than the time to live |
| Caches.MetadataCache.TouchEntry | modules/github_preview/cache.go:58-64 | only the resolution time changes, and only of an existing entry |
| Caches.MetadataCache.Set | modules/github_preview/cache.go:66-74 | the entry is replaced and stamped |
| Caches.MetadataCache.Evict | modules/github_preview/cache.go:76-84 | the entry is gone, and the answer says whether it was there |
| Caches.ArtifactCache.Get | modules/github_preview/cache.go:112-121 | a hit records the access and gives the handle |
| Caches.ArtifactCache.EvictOldestLocked | modules/github_preview/cache.go:147-164 | in any scan order, ties included, the victim was accessed no later than any other |
| Caches.ArtifactCache.MakeRoom | modules/github_preview/cache.go:126-131 | the loop ends and evicts as many of the least recently used as room for one more takes |
| Caches.ArtifactCache.Set | modules/github_preview/cache.go:123-143 | the victims give way to the new entry and exactly their cleanups run |
| Caches.ArtifactCache.Evict | modules/github_preview/cache.go:166-178 | the entry is gone and its cleanup has run once |
| Caches.ArtifactCache.CleanupAll | modules/github_preview/cache.go:181-194 | every entry is gone and every cleanup has run once |
| Caches.ArtifactCache.StaleEntries | modules/github_preview/cache.go:197-208 | exactly the artifacts not accessed since the cutoff, each once |
| ArtifactRecency.GetRefinesTouch | modules/github_preview/cache.go:112-121 | an access no earlier than any before moves the ID to the front of any list that the access times stand for |
| ArtifactRecency.SetRefinesAdd | modules/github_preview/cache.go:123-164 | storing an absent ID is, ties included, an LRU insertion into a list that the access times stand for |
| ArtifactRecency.VictimsAreATail | modules/github_preview/cache.go:147-164 | in any scan order and however ties are broken, the victims are the cold end of such a list |
| ArtifactRecency.VictimsAreTheTail | modules/github_preview/cache.go:147-164 | with distinct access times, they are the cold end of the one list |
| ArtifactRecency.EvictRefinesRemove | modules/github_preview/cache.go:166-178 | evicting removes the ID from the list and keeps the order of the rest |
| ArtifactRecency.ListIsUnique | modules/github_preview/cache.go:22-27 | distinct access times determine the list |
| ArtifactRecency.CachedIsTopOfStack | modules/github_preview/cache.go:112-178 | after any sequence of gets, sets and evictions at increasing times, the cached IDs in order of access are the first ones of the recency stack |
| ArtifactRecency.LongestWithoutEvictions | modules/github_preview/cache.go:112-164 | without evictions on demand they are the longest prefix of the stack that fits |
| ArtifactRecency.CachedIffOnTopSince | modules/github_preview/cache.go:112-178 | with them, an artifact is cached if and only if it was used and has been within the first `maxSize` of the stack ever since |
| PreviewRuns.RunKeepsInv | modules/github_preview/handler.go:347-629 | every state of every run satisfies the handler's invariant |
| PreviewTheorems.TablesAndDiskAgree | modules/github_preview/handler.go:347-629 | in every reachable state metadata and registrations have the same keys, and the zips on disk are those of the cached artifacts, no more than configured |
| PreviewTheorems.EveryHandleIsAccountedFor | modules/github_preview/cache.go:123-194 | every handle ever opened is either held by exactly one cached artifact or has had its cleanup run exactly once |
| PreviewTheorems.ShutdownLeavesNothing | modules/github_preview/handler.go:249-266 | after shutdown there are no registrations and no files, every handle has been cleaned up exactly once, and the metadata is as it was |
| PreviewTheorems.FilesAreZipsWithinSize | modules/github_preview/handler.go:476-494 | every file on disk is a zip within the configured size |
| Registrations.ServesLiveIffRegistered | modules/github_preview/handler.go:347-401 | a successful request leaves its key on a live handle if and only if it goes past the caches, or the key was on the cached handle before |
| Registrations.RegistrationIsLiveIff | modules/github_preview/handler.go:347-508 | in every run, a key's handle is live if and only if its artifact is cached and was not stored again for another key since the key was last registered; otherwise it has been cleaned up once |
| Registrations.RequestServesLiveIff | modules/github_preview/handler.go:347-401 | in every run, a successful request hands out a live handle if and only if it goes past the caches or its key has not been superseded in this way |
| Registrations.CachedIsNewOrSame | modules/github_preview/handler.go:405-494 | after any step a cached artifact is the copy cached before or one just stored, and storing registers the key it was stored for |
| Registrations.AgreementKeptIffUnshared | modules/github_preview/handler.go:347-508 | a step keeps every key whose artifact is cached on the cached handle if and only if it stores no artifact that another key names |
| Registrations.RequestsServeLiveHandles | modules/github_preview/handler.go:347-401 | so in runs that store no artifact that another key names, every successful request serves a live handle whose file is on disk |
| PreviewTheorems.ServedUnlessClosed | modules/github_preview/handler.go:364-397 | a served key goes on being served whatever GitHub does, unless its pull request is found closed |
| PreviewTheorems.RequestRecordsAccess | modules/github_preview/handler.go:347-401 | a successful request counts as an access to the artifact it serves |
| PreviewTheorems.RequestLeavesOtherKeys | modules/github_preview/handler.go:347-494 | a request changes no other key's metadata or registration |
| PreviewTheorems.LateRefreshLeavesAFile | modules/github_preview/handler.go:249-266 | a download stored after shutdown leaves its file and its handle |
| Interleaving.EveryHandleIsSomewhere | modules/github_preview/handler.go:458-489 | in every interleaving of lookups, downloads, stores and evictions each handle is on its way to the cache, cached, cleaned up once, or lost, and lost if and only if it was overwritten |
| Interleaving.StepFollows | modules/github_preview/cache.go:112-178 | a step keeps each handle in at most one place, and loses it exactly by storing over it |
| Interleaving.OverwritesOnlyIfOvertaken | modules/github_preview/handler.go:458-471 | a handle is overwritten only by a resolution that missed the artifact and was overtaken by another one storing it |
| Interleaving.OverlapLosesAHandle | modules/github_preview/cache.go:123-143 | for every zip, two resolutions of one artifact that lose a handle |
| PreviewHistory.RegressesExactly | modules/github_preview/handler.go:446-471 | a key's artifact ID goes down in a step if and only if the step resolved it to an older artifact that can be had, and that was an exact head match or the newer one was no longer cached |
| PreviewHistory.ListingReplacesNewerExactly | modules/github_preview/handler.go:446-456 | the branch listing replaces a newer cached artifact if and only if the listed run names the head commit and its older artifact can be had |
| StaleListing.ListingReplacedNewer | modules/github_preview/github.go:125-129 | a run of two steps in which it does: the head lookup fails and a stale listing has an older build of the head commit |
| PreviewHistory.ArtifactsOnlyGetNewer | modules/github_preview/handler.go:446-471 | over any stretch of a run in which the key is kept, its ID never goes down if and only if there is no such step |
| PreviewHistory.BranchServesNewestBuild | modules/github_preview/handler.go:405-472 | a resolved branch serves the build `ChoosesNewest` describes, or a newer cached one, whose commit it keeps, if that build is not from the head commit |
| PreviewHistory.PullRequestServesNewestBuild | modules/github_preview/handler.go:422-472 | the same for a pull request, and only while it is open |
| PreviewHistory.StampsNeverGoBack | modules/github_preview/cache.go:58-74 | a key's resolution time never goes back while it is kept |
| PreviewHistory.ResolvingStampsNow | modules/github_preview/handler.go:383-397 | a request that resolves stamps a key that stays served with the present, even if GitHub failed |
| PreviewHistory.ResolvesAreSpaced | modules/github_preview/handler.go:351-397 | while a key is served, two resolutions that its requests wait for are more than the TTL apart, even if GitHub keeps failing |
| PreviewHistory.ResolvesAreRare | modules/github_preview/handler.go:351-397 | a window of length T holds at most T / TTL + 1 of them |
| PreviewHistory.StaleAfterFailedRefresh | modules/github_preview/handler.go:362-367 | a stale key is still stale after a refresh if and only if that failed, closed pull requests excepted |
| PreviewHistory.StaleUntilRefreshed | modules/github_preview/handler.go:362-367 | within the TTL of a request served stale, a key is served stale again if and only if no refresh has succeeded since |
| RefreshRetries.FailedRefreshIsRepeatedAtOnce | modules/github_preview/handler.go:529-537 | for every zip and key, a run in which a failed refresh leaves the key stale at the same instant |
| PreviewLaws.EvictDropsOneKey | modules/github_preview/handler.go:622-629 | evicting a key takes out that key, its artifact, file and handle, and changes nothing else |
| PreviewLaws.EvictStepDropsOneKey | modules/github_preview/api.go:165-166 | so does an evict step |
| PreviewLaws.ResolveLaw | modules/github_preview/handler.go:405-494 | for every answer, what a resolution does to metadata, registrations, cache and files: nothing, dropping the key, pointing it at a cached artifact, or downloading one with the announced digest; a refused download changes none of them |
| PreviewLaws.DownloadLaw | modules/github_preview/handler.go:476-494 | a download gives a zip within the limit, with the digest asked for, in place of the victims, or changes no table, cache or file |
| PreviewLaws.RequestLaw | modules/github_preview/handler.go:347-401 | within the TTL the artifact named is served or downloaded again; after it a cached one may be served stale; in all other cases the key is resolved, and a failure leaves it naming what it named |
| PreviewLaws.AnswerIgnoredUnlessExpired | modules/github_preview/handler.go:351-367 | a key within the TTL, or served stale, comes to the same whatever GitHub would answer |
| PreviewLaws.ExpiredTakesUpNewBuild | modules/github_preview/handler.go:371-372 | without stale-while-revalidate an expired key takes up a newer cached build |
| PreviewLaws.FailureLeavesTables | modules/github_preview/handler.go:357-400 | a request or resolution that fails changes no table and no cached artifact, unless the pull request was found closed |
| PreviewLaws.ServedUnlessFoundClosed | modules/github_preview/handler.go:364-444 | against a server: a served key goes on being served, failures of GitHub included, unless a request has to resolve it and its pull request is reported not open and has a build |
| PreviewLaws.ClosedIsReported | modules/github_preview/handler.go:571-588 | a key counts as closed if and only if it is a pull request's number that GitHub reports as not open |
| PreviewLaws.PruneDropsExactly | modules/github_preview/handler.go:562-619 | with or without an age limit, after pruning the artifacts of pull requests reported as not open are gone and those too old, these keys are gone, other keys are dropped only if their artifact was too old, and the rest is unchanged |
| PreviewLaws.OpenIsKept | modules/github_preview/handler.go:570-597 | unless its own artifact was too old, a pull request is kept if and only if GitHub says open or nothing, and a branch is kept always |
| PreviewLaws.PruneKeepsFiles | modules/github_preview/handler.go:562-619 | the files left are those of the artifacts left, unchanged |
| SharedArtifact.SharedArtifactServedDead | modules/github_preview/handler.go:353-356 | for every zip that the handler takes, a run of five steps whose last request succeeds on a handle that has been cleaned up, after a step that stored an artifact another key names |
| Preview.GithubPreview.constructor | modules/github_preview/handler.go:202-234 | a provisioned handler starts empty |
| Preview.GithubPreview.ResolveAndRegister | modules/github_preview/handler.go:347-401 | the method is one request step, keeps the invariant, and marks and counts a background refresh exactly when it serves a stale artifact whose key is unmarked |
| Preview.GithubPreview.Serve | modules/github_preview/handler.go:347-401 | fresh hit, re-download, stale hit with its background refresh, resolve and fallback update the caches, marks and count as specified |
| Preview.GithubPreview.ServeFresh | modules/github_preview/handler.go:353-361 | a fresh key is served from the cache or its artifact downloaded again |
| Preview.GithubPreview.ServeStale | modules/github_preview/handler.go:363-366 | a stale key whose artifact is cached is served, marked and counted |
| Preview.GithubPreview.ResolveOrFallBack | modules/github_preview/handler.go:371-400 | a key is resolved, and what it has is served if that fails |
| Preview.GithubPreview.ServeLastGood | modules/github_preview/handler.go:383-398 | after a failed resolve the last good artifact stays registered and the next attempt waits for the TTL |
| Preview.GithubPreview.FullResolveKey | modules/github_preview/handler.go:405-472 | resolving asks GitHub, and evicts a closed pull request |
| Preview.GithubPreview.ServeFound | modules/github_preview/handler.go:446-471 | the guard against an older listing, then the cache, then a download |
| Preview.GithubPreview.ServeIfCached | modules/github_preview/handler.go:451-469 | a cached artifact is registered for the key and its access recorded |
| Preview.GithubPreview.DownloadAndCacheArtifact | modules/github_preview/handler.go:476-494 | a download lands in both caches and the table, or changes none of them |
| Preview.GithubPreview.Refresh | modules/github_preview/api.go:85-101 | the API's refresh is one full resolve step |
| Preview.GithubPreview.EvictCacheKey | modules/github_preview/handler.go:622-629 | eviction drops artifact, metadata and registration together |
| Preview.GithubPreview.EvictNow | modules/github_preview/api.go:165-166 | the API's evict is one evict step |
| Preview.GithubPreview.TriggerBackgroundRefresh | modules/github_preview/handler.go:511-519 | marking and counting are the trigger step of the refresh protocol |
| Preview.GithubPreview.IsClosedPR | modules/github_preview/handler.go:571-588 | keys that are no PR numbers and unanswered questions are passed over |
| Preview.GithubPreview.PruneClosedPRs | modules/github_preview/handler.go:570-597 | in any order of the keys, exactly the closed pull requests go |
| Preview.GithubPreview.PruneAged | modules/github_preview/handler.go:601-616 | in any order, exactly the aged artifacts go, with the keys that pointed at them |
| Preview.GithubPreview.PruneOnce | modules/github_preview/handler.go:562-619 | a pruning cycle is one prune step and keeps the invariant |
| Preview.GithubPreview.CleanUp | modules/github_preview/handler.go:258-264 | unregistering all keys and cleaning up all artifacts has the effect specified |
| Preview.EvictTwice | modules/github_preview/handler.go:593-607 | evicting in two goes is evicting once, so the order of a pruning cycle does not matter |
| Refresh.OneRefreshPerKey | modules/github_preview/handler.go:511-544 | in every interleaving at most one refresh of a key is between mark and unmark; the count is that of unfinished refreshes and at least the number of marks |
| Refresh.ZeroMeansQuiet | modules/github_preview/handler.go:255-264 | when the count is zero every refresh is done and no key is marked |
| Refresh.TornDownCachesReachedIffTriggered | modules/github_preview/handler.go:249-266 | after the wait a refresh can reach the torn-down caches if and only if a request starts one after it |
| Refresh.LateTriggerIsPossible | modules/github_preview/handler.go:364-367 | such a run exists |

## Left out

- HTTP, JSON, authentication, templates and the debug page: input, output and formatting.
- `extractKey`, host expressions and Caddyfile options: library-driven, and many easy branches.
- singleflight, the rate limiter, contexts and timeouts: library code; a run has its resolves one at a time.
- Interleaved updates of metadata and registrations: what is modelled as interleaved steps is background refreshes against shutdown, opens of the read cache, and the lookups, downloads and stores of artifacts; two downloads writing one file at a time are not.
- `archive.FilesystemFromReader`, tar and gzip: foreign decoders.
- `mergefs`, `vfs`, `localfs`, `prerender`: network clients and thin wrappers.
- `ArtifactCache.stats` and the status API: they report and change nothing.
- File names shown by cached file handles, `Seek` and partial reads: library readers over the same bytes.
- Registrations of other modules: the table holds the handler's own keys, without their common prefix.
- A failing `os.Remove`, and a failing `os.MkdirAll` other than through the creation that follows.
- Byte counts beyond int64 in the read cache: its files are in memory.
- Leap seconds and fractions in timestamps: GitHub writes neither.
- Invalid UTF-8 in byte sizes.
- Github.SortRuns: one stable algorithm, insertion by swaps; the library's merges blocks of such insertions, with the same outcome by `StableSortIsUnique`.
- LruCacheFs.LruCacheFs.Open: runs without interruption; interleaving is in `LruConcurrent`, on the same two sections.
