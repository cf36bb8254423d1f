# Cluster Guardian, verified

A Dafny model of the parts of Cluster Guardian that hold state, algebra or arithmetic, with
machine-checked proofs of what they promise. `dafny verify dfyconfig.toml` checks everything.

**Fleet scanning.** `ScanAll` is a protocol: one registry refresh under a mutex, then a goroutine per
cluster behind a three-token semaphore, each ending in one finish step under the mutex. `Fleet` gives the
two critical sections as functions of the whole fleet, `FleetManager` implements them with the program's own
mutable objects, `FleetRuns` interleaves any number of calls in every way, and `FleetProgress` and
`FleetReplay` prove what every run keeps: tokens, progress, scan counts, the exact state of each cluster and
the exact findings posted; `FleetStatus` what the fleet API tells about each cluster.
`FleetDurability` proves that a persisted history outlives registrations,
`FleetRepeats` that no finding is announced twice in a row over a whole run, `FleetRestarts` the same over any
number of restarts and down to one team's webhook, and `FleetTwice` exactly when it happens after all. `Paths`
supplies the path cleaning that decides which directory a history uses, and `FleetNames` spells the directories
and file names out.

**Run history.** `HistoryLog` describes the bounded store as a window of an unbounded log, `HistoryStore`
implements it over a file system and proves that it refines that window, and `HistoryRuns` proves that
restarts anywhere in a store's life are invisible. `HistoryRecovery` gives the exact condition under which a
restart rebuilds the store when timestamps collide or run backwards, and `HistoryFaults` what it rebuilds
when writes fail; `HistoryLimits` says in plain numbers which runs are shown. `Timestamps` and `Decimal` prove
that the file names sort chronologically.

**Diffs and notification.** `Normalise` and `Diffs` model the number-normalised finding keys and the
run-over-run diff, `Notify` the fan-out to the global and the team webhooks. `Places` says what both mean for the
namespaces and sections of the reports.

**Rightsizing.** `Rounding` holds the piecewise rounding and the quantity printer, `Rightsizing` the
recommender, up to the theorem that applying the printed patch silences it; `RightsizingBands` says exactly when
it speaks.

**Team ownership.** `Teams`, `TeamsFile` and `TeamsStore` cover validation, redaction, the file format, the
two readers, the ConfigMap and the API handlers; `TeamsUpdates` covers overlapping updates of the stored mapping,
`TeamsRefresh` of the mappings in use, and `ReportCache` the report cache that depends on them. `TeamsMeaning`,
`TeamsReading` and `ReportRuns` say what these mean team by team, entry by entry and request by request.

**Reports and inputs.** `Certificates` (findings reported once), `Views` and `Filters` (totals that agree
across renderers, filters that commute), `Manifest` (nested `List` documents) and `Labels` (metric labels), each
with a module that spells out what is reported, rendered, kept or taken: `CertificateReports`, `ViewContents`,
`FilterContents` and `ManifestContents`. `Picking` is what they share: a loop keeps exactly these positions, in order.

Where the program changes state step by step the model does too: methods with loops, classes with fields.
Each is proved against a function of its inputs, and the theorems are about that function; what the function
itself means is stated in lemmas that do not use it, with the program's own constants written out. Bounded integer
width never matters in the modelled code, so counters are unbounded.

## What the proofs found

Each of these is a member below.

- Two overlapping `ScanAll` calls can bring the process down: a refresh that no longer lists a cluster whose
  scan is in flight leaves the finish step without a state (`OverlapCrashes`). It happens exactly when the
  latest refresh does not list the name (`CrashExactly`). A registry whose secrets cannot be listed returns
  the local cluster alone (`ListClusters`), so one failed listing is such a refresh.
- Two reports of one millisecond share a history file, and a restart then forgets one of them
  (`SameMillisecondLosesRun`). A restart rebuilds the store exactly when the files in the window are in
  strict order and none was removed under its run by an older one of the same name (`RecoverableExactly`);
  with names that never repeat, exactly when they are in order (`DistinctRecoverableExactly`).
- A history limit of 1 would forget the previous run on restart, so the clamp to 2 is needed
  (`LimitOneForgetsPrevious`).
- A write that fails after it has put something on disk leaves a file that the store has not listed and never
  removes; when the whole report is there, a restart shows a run that the process did not know to be persisted
  (`FaultyLifeIsExact`). A report that does not encode keeps a listed name without a file. The files on disk are
  the listed ones exactly when no write ended the first way and none in the window the second
  (`DiskNamesExactly`).
- A report whose write fails is forgotten when its cluster is dropped and listed again, and its findings are
  announced a second time although every scan had them (`FailedWriteRepeats`). A second announcement without a
  clean scan in between happens exactly at the first success since a registration whose history ended with a
  report without the finding (`RepeatsExactly`).
- The comment on `findingKey` says that a changed count keeps its key. It does unless the count crosses
  between 1 and another number and the message is pluralised: `1 Pod` becoming `2 Pods` is a resolved and a
  new finding (`CountedStable`, `OneToManyChanges`). A literal `#` is confused with any number
  (`HashReadsAsNumber`); which messages share a key is settled by `NormalFormsAgree`, and a message has its
  key to itself exactly when it holds neither a digit nor a `#` (`KeyIsLiteral`).
- Severity is not part of the key, so an escalation is silent (`CountsAreSilent`).
- The printed patch for an idle pod asks for `32Mi` under a limit of `0Mi`. The request exceeds the limit
  exactly when one and a half times the observed peak is at most the rounding tolerance, a thirtieth of a
  byte (`LimitCoversRequest`).
- Renaming a team in a redacted reply drops its webhook (`RenameDropsWebhook`); it is kept exactly when the
  last stored team of the new name has the same one (`RenameKeepsWebhook`).
- A PUT that only sends back what a GET returned undoes any update saved after the PUT read the mapping
  (`OverlapUndoesUpdate`). Unless a save brings an earlier mapping back, it undoes something exactly when some
  save since that read changed the mapping (`EchoUndoesExactly`); any other PUT keeps the webhook of a redacted
  team exactly when none changed that webhook (`WebhookKeptExactly`).
- Two overlapping updates of the team mapping can leave the older one in use after both have completed
  (`OverlapInstallsStale`), and the server and the fleet with different ones (`OverlapSplitsCopies`). With
  mappings that never recur, a copy is current exactly when nothing was written after its last installer
  read (`CurrentExactly`), and the two copies agree exactly when nothing was written between the reads of their
  last installers (`CopiesAgreeExactly`).
- Two clusters share a history directory exactly when their names differ only in characters that
  `SanitizeName` replaces, or are both the empty name or `.`, or add `..` to these below a history directory
  that is the root (`SharedDirectory`). The registrable names `.` and `..` keep their histories in the common
  directory and in the one above it (`DotsEscape`); every other name but the empty one has a directory of its own
  right below the common one (`OwnDirectoryExactly`).

## Model

| member | source | states |
|---|---|---|
| FleetRuns.RegistryInSync | internal/fleet/manager.go:125-155 | after every run of refreshes, token grabs, finishes and releases, in any interleaving, the keys of `states`, the names in `order` and the latest listing coincide |
| FleetRuns.CrashExactly | internal/fleet/manager.go:170-174 | a finishing scan finds no state, and the process dies, if and only if the latest refresh does not list its cluster |
| FleetRuns.ShelteredNeverCrashes | internal/fleet/manager.go:119-193 | if no refresh drops a name whose scan is not yet recorded, no run crashes and everything in flight is listed |
| FleetRuns.OneAtATimeIsSheltered | internal/fleet/manager.go:102-115 | calls that start only when no scan is in flight satisfy that condition |
| FleetRuns.OverlapCrashes | internal/server/admin.go:206-215 | the concrete overlapping run, for any two cluster names, that loses the state of a scan in flight |
| FleetProgress.AtMostThreeScans | internal/fleet/manager.go:157-164 | at most three scans of one call hold a token, in every run |
| FleetProgress.StartsExactly | internal/fleet/manager.go:157-164 | a waiting goroutine can start its scan iff fewer than three goroutines of its call hold a token |
| FleetProgress.StepCost | internal/fleet/manager.go:159-192 | each goroutine step takes one unit off the remaining work, a refresh adds three per listed cluster |
| FleetProgress.StepsAddUp | internal/fleet/manager.go:159-192 | steps taken plus steps left are three per goroutine, so every run is bounded |
| FleetProgress.NeverStuck | internal/fleet/manager.go:157-192 | while a goroutine is unfinished some goroutine can step: the semaphore never deadlocks |
| FleetProgress.ScansConserved | internal/fleet/manager.go:159-175 | for a cluster every refresh lists, scans recorded plus scans pending equal goroutines started, overlaps included |
| FleetProgress.ScannedOncePerScanAll | internal/fleet/manager.go:119-193 | when all work is done, k refreshes with unique names have scanned such a cluster exactly k times |
| FleetReplay.StepTouchesOne | internal/fleet/manager.go:170-189 | helper: a goroutine's step changes the state of its own cluster only, and only by recording its scan |
| FleetReplay.StateIsReplay | internal/fleet/manager.go:134-189 | in any interleaving a cluster's state is the replay of its own scans since registration, on the history its directory held at that registration |
| FleetReplay.ReplayIsExact | internal/fleet/manager.go:170-181 | scans = errors + successes, the report is the last success or nil, the history is the window of all runs, and a report is the history's last |
| FleetReplay.FleetStateExact | internal/fleet/manager.go:30-40 | the same for every cluster of a running fleet |
| FleetReplay.PostIsDiff | internal/fleet/manager.go:176-189 | a finished scan posts the keys its report has and the last run of its history had not; nothing on failure or without an earlier run |
| FleetReplay.PostedExactly | internal/fleet/manager.go:182-189 | key k is posted at scan i iff scan i succeeded with it and the run before lacked it; that run is the last success since registration or else the last of the history the cluster was registered with, and with neither nothing is posted |
| FleetReplay.RepeatsStaySilent | internal/fleet/manager.go:182-189 | between two posts of one key lies a successful run without it |
| FleetReplay.FleetPostsExactly | internal/fleet/manager.go:182-189 | the same rule for a finish step of a running fleet, whatever other clusters and calls do; the history at registration is what the cluster's directory held at that refresh, so over an empty directory the first success is silent |
| FleetReplay.PostsAppeared | internal/fleet/manager.go:182-189 | what is posted is the whole list of findings that are new against the last run, in report order; never an empty list |
| FleetReplay.FinishPosts | internal/fleet/manager.go:182-201 | in a running fleet only a finish step posts, once, for its own cluster, exactly that list |
| FleetReplay.OpenedLast | internal/history/history.go:48-63 | the last run of a newly opened history is the last readable report of its directory, none in memory |
| FleetReplay.MemoryStartsEmpty | internal/fleet/manager.go:143-151 | without a history directory every registration starts without a run |
| FleetDurability.HistorySurvivesDrops | internal/fleet/manager.go:125-181 | for unshared directories with reports written in order, a cluster's history is the window of all its successes ever, across drops and new registrations and whatever other clusters do |
| FleetDurability.EveryHistoryRecoverable | internal/history/history.go:37-97 | in every reachable world each registered cluster's directory rebuilds its history |
| FleetRepeats.RepeatNeedsGap | internal/fleet/manager.go:182-189 | over a whole run of the fleet, between two posts of a key for one cluster lies a successful scan of it without the key, even if it was dropped in between |
| FleetRepeats.MemoryIsFaithful | internal/fleet/manager.go:143-151 | that condition on registrations holds for histories in memory |
| FleetRepeats.PersistentIsFaithful | internal/fleet/manager.go:143-151 | and for histories that persist |
| FleetRestarts.RepeatNeedsGapOverRestarts | internal/fleet/manager.go:143-189 | the same however often the process was restarted in between on the directories it left |
| FleetRestarts.PersistentLivesAreFaithful | internal/history/history.go:37-65 | the condition on registrations holds for lives that persist, whatever limit each is given |
| FleetRestarts.MemoryLivesAreFaithful | internal/history/history.go:41-44 | and for lives in memory |
| FleetRestarts.TeamHearsAgainAfterGap | internal/notify/router.go:30-49 | one team's webhook receives a key of a cluster again only after a successful scan without it, restarts and changes of the router included |
| FleetTwice.RepeatsExactly | internal/fleet/manager.go:143-189 | after a post that nothing cleared, a finishing scan posts the key again iff it is the first success since a registration whose history ended with a report without the key |
| FleetTwice.FailedWriteRepeats | internal/history/history.go:72-82 | the run, for any two reports, in which a failed write makes a dropped and relisted cluster announce a finding twice |
| Fleet.RefreshShape | internal/fleet/manager.go:125-155 | a refresh leaves exactly the listed names, keeps counters, report and history of known ones, and gives new ones no scans and the history their directory held before, even when two share one; no directory opens differently afterwards |
| Fleet.SharedDirectory | internal/fleet/manager.go:143-146 | exactly when two names get one history directory, path cleaning included |
| Fleet.DotsEscape | internal/fleet/manager.go:143-146 | the names "." and ".." use the common history directory and its parent |
| Fleet.OwnDirectoryExactly | internal/fleet/manager.go:143-146 | a name gets a directory of its own right below the common one iff it is not empty, "." or ".." |
| Paths.JoinEnters | internal/fleet/manager.go:145 | joining a name is one step from the cleaned directory, with ".." climbing |
| Fleet.Sanitize | internal/fleet/fleet.go:111-122 | the loop replaces every character outside the plain set and nothing else |
| FleetNames.SanitizedExactly | internal/fleet/fleet.go:111-122 | ASCII letters, digits, '-', '_' and '.', given by their codes, stay and every other character becomes '-' |
| FleetNames.TidyExactly | internal/fleet/manager.go:145 | path cleaning leaves the root, the current directory and everything reached from them by plain segments as it is |
| FleetNames.DirectoryExactly | internal/fleet/manager.go:143-146 | below a tidy history directory a cluster's own is that directory, a slash and the sanitised name |
| FleetNames.DotDirectoryExactly | internal/fleet/manager.go:143-146 | a cluster called ".." uses the directory one segment up, "." and "" the history directory itself |
| FleetNames.OpenedExactly | internal/fleet/manager.go:143-151 | a history is in memory iff none is persisted or its directory cannot be made |
| FleetManager.Manager.Refresh | internal/fleet/manager.go:125-155 | the object graph after a refresh is `Refreshed` of the one before, disk included |
| FleetManager.Manager.Register | internal/fleet/manager.go:140-153 | one listed cluster: kept with new connection details, or created with its own history |
| FleetManager.Manager.Create | internal/fleet/manager.go:143-151 | a new state on what its directory holds, in memory when that cannot be made |
| FleetManager.Manager.Finish | internal/fleet/manager.go:170-189 | the finish step is `Finished`, says whether it found a state, and returns what is posted; what that leaves in the fields is stated by `FleetStatus.StatusIsExact` and `FleetReplay.FinishPosts` |
| FleetManager.ClusterState.Record | internal/fleet/manager.go:173-181 | times, counters, error, report and history after one scan |
| FleetManager.ClusterState.RecordAndCompare | internal/fleet/manager.go:172-189 | the same, and what is posted about it |
| FleetManager.ClusterState.NewFindings | internal/fleet/manager.go:182-187 | the new findings of the latest diff, none when there are none |
| FleetManager.Manager.Statuses | internal/fleet/manager.go:204-229 | one status per listed name, in registry order, and each field of each |
| FleetStatus.LastScanIsKept | internal/fleet/manager.go:170-179 | in every run a registered cluster's time, duration and error are those of its last finished scan since registration: a failure leaves its error, a success clears it, before the first there are none |
| FleetStatus.ConnectionIsLatest | internal/fleet/manager.go:140-153 | in every run a registered cluster is reached with the details of the last entry of its name in the latest listing |
| FleetStatus.StatusIsExact | internal/fleet/manager.go:204-229 | in every run each field of a status in terms of the listing and the cluster's own scans |
| FleetManager.Manager.GetReport | internal/fleet/manager.go:232-239 | the latest report, nil for an unknown or never scanned cluster |
| FleetManager.LiveNames | internal/fleet/manager.go:130-133 | the set of listed names |
| FleetManager.ListClusters | internal/fleet/fleet.go:78-108 | the local cluster under its context name or "local", then each usable secret with a new name, in order; the local one alone on an error |
| FleetManager.RegistryInOrder | internal/fleet/fleet.go:42-108 | the registered clusters are exactly the secrets with a name, a server and details that parse that first use a name other than the local one, in the order of the list |
| FleetManager.RegistryNamesUnique | internal/fleet/fleet.go:78-108 | no two listed clusters have one name |
| HistoryLog.PushRefinesAppend | internal/history/history.go:86-97 | `push` on the window of a log is the window of the log with one more run |
| HistoryLog.OldFilesRedundant | internal/history/history.go:90-96 | removing files outside the window does not change what a restart rebuilds |
| HistoryLog.ReopenStable | internal/history/history.go:37-65 | opening any directory twice equals opening it once, whichever removals fail |
| HistoryLog.AppendRecoverable | internal/history/history.go:69-97 | a written append keeps the directory able to rebuild the store |
| HistoryRuns.ChronologyGivesOrder | internal/history/history.go:52-74 | reports at least a millisecond apart, up to year 9999, get file names in order |
| HistoryRuns.RestartsInvisible | internal/history/history.go:37-97 | for every life of appends and restarts the store is the window of everything appended, for every limit from 2 |
| HistoryRuns.ChronologicalLifeRecovers | internal/history/history.go:37-97 | from an empty directory, with strictly later timestamps, every store is the window of its runs and is rebuilt from its directory, for every requested limit |
| HistoryLimits.LifeShowsLast | internal/history/history.go:37-97 | for a requested limit L, from an empty directory and with strictly later timestamps, any restarts included: exactly the last max(L, 2) of the runs are shown, entry by entry, with their files and as last and previous report |
| HistoryLimits.AppendsShowLast | internal/history/history.go:69-97 | the same for any directory, any timestamps and any write failures while the process lives |
| HistoryLimits.OpenedShowsLast | internal/history/history.go:48-63 | an opened store shows the last max(L, 2) readable reports in the order of their names |
| HistoryLimits.MemoryShowsLast | internal/fleet/manager.go:143-181 | a registered cluster's history in memory shows the last max(L, 2) of its successful scans since registration |
| HistoryLimits.PersistedShowsLast | internal/fleet/manager.go:125-181 | one on disk shows the last max(L, 2) of the reports found at the start and of all its successful scans ever, under the condition of `HistorySurvivesDrops` |
| HistoryLimits.OnlyOwnDirectory | internal/fleet/manager.go:173-181 | a failed scan or one kept in memory leaves the disk alone, any other touches its own cluster's directory only |
| HistoryLimits.SuccessesInOrder | internal/fleet/manager.go:176-181 | the runs of a history are the successful scans, each once and in order, with the file it was written to |
| HistoryRuns.RestartsKeepTheDiff | internal/history/history.go:108-116 | a restarted store reports the diff of one that never stopped |
| HistoryRuns.StoreIsWindow | internal/history/history.go:69-97 | with writes failing in any way the entries, files and last two reports are the window of the log |
| HistoryRuns.DiskIsExact | internal/history/history.go:72-96 | for distinct names and working removals the disk holds exactly the written runs in the window, plus for good what failed writes left |
| HistoryRuns.DiskNamesExactly | internal/history/history.go:72-96 | the files on disk are the listed ones iff no failed write left something and no report in the window failed to encode |
| HistoryRuns.SameMillisecondLosesRun | internal/history/history.go:74 | two reports with one file name: two entries in memory, one after a restart |
| HistoryRuns.LimitOneForgetsPrevious | internal/history/history.go:38-40 | without the clamp a restart loses the previous run |
| HistoryRecovery.RecoverableIsSorted | internal/history/history.go:48-63 | whatever a directory rebuilds has its files in strict order, so a store with a repeated file is never rebuilt |
| HistoryRecovery.RecoverableExactly | internal/history/history.go:69-97 | for written appends with any names, a restart rebuilds the store iff the window's files are in strict order and none lost its file to the removal of an older run of its name |
| HistoryRecovery.DistinctRecoverableExactly | internal/history/history.go:69-97 | with names that never repeat, iff they are in strict order |
| HistoryFaults.FaultyLifeIsExact | internal/history/history.go:37-97 | for any mix of restarts and appends whose writes succeed, fail with nothing, part or all of the report on disk, or never encode, the store is the window of what the process knows, and a restart shows exactly the reports written whole that are still in the window or were never listed |
| HistoryStore.Store.New | internal/history/history.go:37-65 | the store rebuilt from a directory, a limit equal to the requested one or 2 when that is less, what pruning leaves on disk, nil when the directory cannot be made |
| HistoryStore.Store.Load | internal/history/history.go:48-63 | pushes the readable files in the order of their names, skipping the others |
| HistoryStore.Store.Append | internal/history/history.go:69-82 | memory and disk after an append for each of the five ways the write can end |
| HistoryStore.Store.Push | internal/history/history.go:86-97 | one more run in the ghost log, fields still its window, evicted files gone |
| HistoryStore.Store.Prune | internal/history/history.go:90-96 | the loop drops the oldest entries and files in step and removes exactly the non-empty names |
| HistoryStore.Store.Entries | internal/history/history.go:100-104 | the index is the last min(n, limit) runs |
| HistoryStore.Store.GetLastDiff | internal/history/history.go:108-116 | the diff of the last two runs, nil before there are two |
| HistoryStore.FileSystem.SortedGlob | internal/history/history.go:48-52 | the sorted listing, whatever order the glob returns |
| Timestamps.FileNameOrder | internal/history/history.go:52-74 | file names compare lexicographically as their instants do, both directions, up to year 9999 |
| Timestamps.FileNameCollision | internal/history/history.go:74 | two instants share a file name iff they agree to the millisecond |
| Timestamps.FileNameMatchesGlob | internal/history/history.go:48-74 | every written name is found again by the reload's pattern |
| Timestamps.FiveDigitYearSortsFirst | internal/history/history.go:52-74 | why the bound is there: the name of year 10000 sorts before that of 9999; no such report encodes, so no store writes that name |
| FleetNames.FileNameExactly | internal/history/history.go:74 | the name of a report's file, digit by digit |
| FleetNames.GlobExactly | internal/history/history.go:48 | the reload takes up exactly the names that start with "report-" and end with ".json" after it |
| Normalise.NoDigitsLeft | internal/report/diff.go:21-28 | a normalised message has no digits |
| Normalise.NormalisedTwice | internal/report/diff.go:21-28 | normalising again changes nothing |
| Normalise.NumberIrrelevant | internal/report/diff.go:21-28 | p+m+q and p+n+q normalise alike for all texts and numbers, even where p or q touch the number with digits |
| Normalise.NormalFormsAgree | internal/report/diff.go:21-28 | two messages normalise alike iff they agree outside numbers and '#'s and have these in the same places, for all texts |
| Normalise.NumbersOnly | internal/report/diff.go:21-28 | without '#', iff they differ in numbers only |
| Normalise.KeyIsLiteral | internal/report/diff.go:21-28 | a message shares its normal form with no other iff it has neither a digit nor a '#' |
| Normalise.HashReadsAsNumber | internal/report/diff.go:21-28 | "#" and "7" normalise alike |
| Normalise.CountedStable | internal/checks/helpers.go:47-52 | a counted, pluralised message keeps its form iff the count does not cross 1 or the words normalise alike |
| Normalise.CountedReads | internal/checks/helpers.go:47-52 | a count of one takes the singular, every other the plural, and the normal form has a '#' for the number |
| Normalise.OneToManyChanges | internal/report/diff.go:23-25 | "1 Pod" and "2 Pods" normalise apart |
| Reports.ForEachFinding | internal/report/diff.go:58-69 | the findings visited, in order, with location and team; which these are is stated by `Places.NamespaceVisitedAt` and `Places.SectionVisitedAt` |
| Reports.SectionsHaveNoTeam | internal/report/diff.go:64-68 | findings of topic sections belong to no team |
| Places.VisitedOnce | internal/report/diff.go:58-69 | the walk visits as many findings as all namespaces and sections have |
| Places.NamespaceVisitedAt | internal/report/diff.go:58-63 | finding j of namespace i comes after those of the namespaces before it, located at "namespace " and its name, with its team |
| Places.SectionVisitedAt | internal/report/diff.go:64-68 | finding j of section i comes after all namespaces and the sections before it, located at its title, with no team |
| Diffs.FindingKeys | internal/report/diff.go:48-56 | the keys of all findings above OK |
| Diffs.Diff | internal/report/diff.go:31-46 | new and resolved findings, in report order; what these are is stated by `Places.NewInNamespaceExactly` and `Places.NewInSectionExactly` |
| Diffs.FindUnknown | internal/report/diff.go:34-44 | one walk: the reportable findings whose key is not in a set |
| Places.NewInNamespaceExactly | internal/report/diff.go:21-46 | for names, titles and objects without a vertical bar and no section titled like a namespace: a finding of namespace b is new iff it is above OK and the older report has none with its object and normalised message in a namespace called b, and resolved iff the newer one has none |
| Places.NewInSectionExactly | internal/report/diff.go:21-46 | the same for a section and its title |
| Places.UnknownInOrder | internal/report/diff.go:31-46 | both parts of a diff keep the order of the walk and every occurrence |
| Diffs.UnknownKeepsOccurrences | internal/report/diff.go:31-46 | each reportable occurrence with an unknown key is kept as often as it occurs, nothing else |
| Diffs.DiffAlgebra | internal/report/diff.go:31-46 | newer keys = (older minus resolved) plus new; new is disjoint from older, resolved from newer; swapping the runs swaps the parts |
| Diffs.DiffsReplay | internal/report/diff.go:31-46 | folding the diffs of any chain of runs over the first key set gives the last |
| Diffs.CountsAreSilent | internal/report/diff.go:21-46 | runs that differ only in numbers and in severities above OK have an empty diff |
| Diffs.SelfDiffEmpty | internal/report/diff.go:31-46 | a run against itself has an empty diff |
| Diffs.KeyIdentifies | internal/report/diff.go:26-28 | for locations and objects without a vertical bar, equal keys mean equal place, object and normalised message |
| Notify.NotifierNotify | internal/notify/notify.go:49-62 | posts the findings at or above the threshold, nothing when none qualifies |
| Notify.GroupByTeam | internal/notify/router.go:36-41 | each team's findings in order, none without a team |
| Notify.RouterNotify | internal/notify/router.go:30-49 | what every webhook receives, in any order of the team map, and whether an error is returned |
| Notify.TeamHearsExactlyItsOwn | internal/notify/router.go:30-49 | a team receives each qualifying finding of its own as often as it occurs and no one else's |
| Places.QualifyingInOrder | internal/notify/notify.go:49-62 | a webhook receives the findings whose severity reaches its threshold, in order, by a table of severities |
| Places.ShareInOrder | internal/notify/router.go:36-41 | a team's share are the findings with its name, in order |
| Places.OwnerHearsExactly | internal/notify/router.go:30-49 | of two reports a team's webhook receives a finding of a namespace iff the team owns that namespace in the newer report, the severity reaches its threshold, and the older report has no such problem in a namespace of that name |
| Places.GlobalHearsExactly | internal/notify/router.go:30-34 | the global webhook receives it whoever owns the namespace |
| Rounding.RoundCPUMonotone | internal/checks/rightsizing.go:266-271 | monotone, across the one-core branch too |
| Rounding.RoundCPUTight | internal/checks/rightsizing.go:262-271 | never below the input by more than the scaled epsilon, less than a step above |
| Rounding.RoundCPUIdempotent | internal/checks/rightsizing.go:266-271 | rounding again changes nothing |
| Rounding.RoundMemMonotone | internal/checks/rightsizing.go:274-277 | monotone |
| Rounding.RoundMemTight | internal/checks/rightsizing.go:274-277 | never below by more than the scaled epsilon, less than 32Mi above |
| Rounding.RoundMemIdempotent | internal/checks/rightsizing.go:274-277 | rounding again changes nothing |
| Rounding.CPUReadsBack | internal/checks/rightsizing.go:279-289 | the printed CPU request parses to exactly the rounded amount, in all three printing branches |
| Rounding.MemReadsBack | internal/checks/rightsizing.go:291-297 | the printed memory amount parses to exactly the rounded amount |
| Rightsizing.CollectPeaks | internal/checks/rightsizing.go:169-188 | the componentwise peaks over the selected pods, whether any was observed, and how many there are |
| Rightsizing.Recommend | internal/checks/rightsizing.go:159-226 | the recommendation, or none; when there is one and what it says is stated by `RightsizingBands.SilentExactly`, `RecommendationSuggests` and `RecommendationTells` |
| RightsizingBands.SilentExactly | internal/checks/rightsizing.go:190-209 | with c and m the highest CPU P95 and memory of the workload's observed pods: silence iff none was observed, or each request is at most 1.5 times its suggestion or less than 0.05 cores or 64Mi above it, none that is set is below its peak, and one is set |
| RightsizingBands.StarvedIsNamed | internal/checks/rightsizing.go:203-209 | a workload with an observed pod above a positive request, or with no request at all, is always named |
| RightsizingBands.UsageIsHighest | internal/checks/rightsizing.go:169-188 | all six usage figures are the highest over the running pods that match in the namespace and were observed |
| RightsizingBands.SelectedInOrder | internal/checks/rightsizing.go:172-175 | the pods counted are all that match, in order |
| RightsizingBands.SelectedOnly | internal/checks/rightsizing.go:161-175 | nothing outside the namespace or not running matches, and an unusable or empty selector matches nothing |
| RightsizingBands.ExpressionsNarrow | internal/checks/rightsizing.go:164-174 | what each kind of label expression demands of a pod |
| RightsizingBands.SuggestionBounds | internal/checks/rightsizing.go:199-201 | a suggestion is at least 1.1 times the P95 or 1.15 times the memory peak less the rounding tolerance and at least 10m or 32Mi, and less than one step above the greater of the two |
| RightsizingBands.RecommendationSuggests | internal/checks/rightsizing.go:199-224 | a recommendation suggests these amounts for the observed peaks |
| RightsizingBands.RecommendationTells | internal/checks/rightsizing.go:211-224 | container, number of pods, requests, usage, waste and savings it states |
| RightsizingBands.WasteInUnits | internal/checks/rightsizing.go:220-221 | waste counts cores and quarters of GiB freed on every pod, and no shortage |
| RightsizingBands.SavingsInUnits | internal/checks/rightsizing.go:222-223 | savings price cores and GiB freed on every pod, and no shortage |
| Rightsizing.WorthExactly | internal/checks/rightsizing.go:220-224 | waste is never negative, there is some iff a request exceeds its suggestion, as in every over-provisioned workload; at non-negative prices the same for savings and resources that cost something |
| Rightsizing.ObservedIsPeak | internal/checks/rightsizing.go:181-187 | the aggregate bounds every observed pod |
| Rightsizing.SuggestionsCover | internal/checks/rightsizing.go:199-201 | suggestions cover the observed CPU P95 and memory peak and are never zero |
| Rightsizing.SplitSilences | internal/checks/rightsizing.go:203-209 | requests that add up to the suggestion, split in any way over containers, silence the recommender |
| Rightsizing.PatchIsExact | internal/checks/rightsizing.go:249-253 | the requests of the printed patch are exactly the suggested ones |
| Rightsizing.PatchSilences | internal/checks/rightsizing.go:159-297 | applying the printed patch of a single-container workload leaves nothing to recommend for the same usage |
| Rightsizing.LimitCoversRequest | internal/checks/rightsizing.go:249-253 | the printed memory request stays within the printed limit iff the peak is above the rounding tolerance |
| Rightsizing.LimitCoversRequestFromOneByte | internal/checks/rightsizing.go:249-253 | in particular for every peak of at least one byte |
| Teams.Validate | internal/teams/store.go:41-65 | accepts exactly the specs with usable unique names, no empty namespace and one owner each, all trimmed; otherwise names a problem the spec has |
| TeamsMeaning.ValidExactly | internal/teams/store.go:41-65 | a spec is accepted iff, trimmed, every name and namespace is non-empty, no two teams have one name and no two list one namespace |
| TeamsMeaning.ProblemExactly | internal/teams/store.go:44-62 | each refusal in terms of the spec's own names and namespaces |
| TeamsMeaning.TrimExactly | internal/teams/store.go:45-54 | trimming takes away exactly the space around a text |
| Teams.MapsUnique | internal/teams/store.go:103-114 | a set of claims determines its namespace map |
| Teams.ToConfig | internal/teams/store.go:103-114 | the lookup of a spec, later claims winning |
| TeamsMeaning.OwnerIsLastToList | internal/teams/store.go:103-114 | a namespace is owned by the last team that lists it, and by none when none does |
| TeamsMeaning.WebhookIsLast | internal/teams/store.go:103-114 | a team's webhook is that of the last team of its name with one |
| Teams.OwnersMap | internal/teams/store.go:103-108 | without conflicting claims the lookup maps every claimed namespace to its team and no other |
| Teams.MergeSecrets | internal/teams/store.go:87-100 | redacted webhooks come from the previous spec by team name, everything else from the new one |
| TeamsMeaning.MergedExactly | internal/teams/store.go:87-100 | names, namespaces and every webhook other than "***" are stored as sent; "***" becomes the webhook of the last stored team of that name, or none |
| Teams.RedactionUndone | internal/teams/store.go:73-100 | merging a redacted spec with itself restores it iff no configured webhook is shadowed by a later team of the same name |
| Teams.ValidRedactionUndone | internal/teams/store.go:73-100 | in particular whenever team names are distinct |
| Teams.ValidIsDistinct | internal/teams/store.go:45-52 | validated specs have distinct raw names |
| Teams.RenameDropsWebhook | internal/teams/store.go:94-96 | a renamed redacted team ends up without a webhook |
| Teams.RenameKeepsWebhook | internal/teams/store.go:87-100 | a renamed redacted team keeps its webhook iff the last stored team of the new name has the same one |
| Teams.DistinctRenameKeepsWebhook | internal/teams/store.go:87-100 | with distinct names, iff some stored team of the new name has it |
| Teams.ValidMeansOneOwner | internal/teams/store.go:41-65 | what `Validate` accepts on trimmed names is unambiguous on raw ones |
| TeamsFile.MarshalYAML | internal/teams/store.go:118-132 | the document of a spec, namespaces sorted |
| TeamsReading.FileExactly | internal/teams/store.go:118-132 | the entry of a name is that of the last team called so: its namespaces in order, and its webhook |
| TeamsFile.ParseSpec | internal/teams/store.go:135-164 | an error iff some entry is malformed, otherwise the sorted spec, in any order of the map |
| TeamsReading.ReadExactly | internal/teams/store.go:135-164 | one team per entry in the order of the names; a list keeps its namespaces, in order, and has no webhook, the structured form keeps both |
| TeamsFile.FileRoundTrip | internal/teams/store.go:118-164 | a spec with distinct names comes back sorted and otherwise unchanged |
| TeamsFile.RoundTripExactly | internal/teams/store.go:118-164 | the round trip works iff team names are distinct |
| TeamsFile.ReadIsDistinct | internal/teams/store.go:135-164 | what is read has distinct names |
| TeamsFile.ReadIsCanonical | internal/teams/store.go:158-163 | what is read is already sorted |
| TeamsFile.SameFile | internal/teams/store.go:118-132 | the document does not depend on the order of teams or namespaces |
| TeamsFile.Load | internal/teams/teams.go:42-64 | fails iff an entry is malformed or a namespace has two owners, in any order of the map, naming a real problem; otherwise resolves the document |
| TeamsReading.RefusalExactly | internal/teams/teams.go:42-62 | a failing load names an entry in neither form, or two different entries that list one namespace |
| TeamsReading.LookupExactly | internal/teams/teams.go:42-63 | a resolved document looks up exactly its listed namespaces and its written webhooks |
| TeamsReading.ReadersAgree | internal/teams/teams.go:29-64 | on every document that `Load` accepts, hand-written ones included, `ParseSpec` and `Spec.Config` give the same lookup |
| TeamsFile.ResolutionUnique | internal/teams/teams.go:42-63 | a document resolves in one way only, so the order cannot matter |
| TeamsFile.LoadOfFile | internal/teams/teams.go:42-63 | the file of a spec with distinct names loads iff no namespace has two owners, and then gives `Spec.Config` |
| TeamsFile.LoadAgreesWithConfig | internal/teams/store.go:39-65 | the file of a validated spec always loads, to `Spec.Config` |
| TeamsFile.BothReadersAgree | internal/teams/store.go:233-239 | reading the file back as a spec gives the same lookup |
| TeamsStore.Store.Get | internal/teams/store.go:185-194 | the stored mapping, empty when nothing is stored, an error when it does not parse |
| TeamsStore.Store.Put | internal/teams/store.go:197-228 | writes valid specs only, keeps every other key, changes nothing on failure |
| TeamsStore.Store.HandleGet | internal/server/admin.go:164-171 | the reply is the redacted mapping or an error |
| TeamsStore.Store.HandlePut | internal/server/admin.go:176-202 | which status is sent when, a body that is not a mapping included, the ConfigMap after each, and the mapping the server uses afterwards |
| TeamsStore.Store.RefreshServer | internal/server/admin.go:220-234 | after a write the server uses the lookup of what was written and drops its cache, unless the read back fails |
| TeamsStore.ReadBackLookup | internal/teams/store.go:233-239 | what is read back after a write gives the lookup of what was written |
| TeamsStore.WriteThenRead | internal/teams/store.go:185-228 | a written spec is read back sorted, other keys untouched |
| TeamsStore.PutOfGet | internal/server/admin.go:164-202 | PUT of what GET returned keeps teams, webhooks and other keys |
| TeamsStore.RedactionHides | internal/teams/store.go:73-82 | helper: a redacted spec shows which teams have a webhook and never which one |
| TeamsUpdates.QuietReadIsStored | internal/server/admin.go:182-192 | what a handler read is what is stored as long as nothing was saved since |
| TeamsUpdates.QuietSaveKeepsWebhooks | internal/server/admin.go:182-195 | then its save gives every redacted team the webhook stored under its name just before |
| TeamsUpdates.ReadIsCurrentExactly | internal/server/admin.go:182-192 | what a handler read and what is stored agree, in the whole mapping or in any observation of it, iff no save since its last read changed that, where changes never bring back an earlier value |
| TeamsUpdates.EchoRestoresRead | internal/server/admin.go:182-195 | in any run a body that only sends back a valid reading puts that reading back, webhooks included |
| TeamsUpdates.EchoUndoesExactly | internal/server/admin.go:182-195 | it leaves the stored mapping as it is iff no save since its last read changed the mapping |
| TeamsUpdates.WebhookKeptExactly | internal/server/admin.go:182-195 | for any body a redacted team gets the webhook stored under its name just before iff no save since its last read changed that webhook |
| TeamsUpdates.OverlapUndoesUpdate | internal/server/admin.go:182-195 | for any mapping and update, a redacted body merged with an earlier read restores the old mapping over the update |
| TeamsUpdates.SequentialKeepsUpdate | internal/server/admin.go:182-195 | one after the other the same bodies keep the update's webhooks |
| TeamsRefresh.InUseIsAsRead | internal/server/admin.go:220-238 | after any interleaving of updates each copy in use, the server's and the fleet's, is the mapping stored when its installer read it, or the initial one |
| TeamsRefresh.QuietReadIsCurrent | internal/server/admin.go:192-238 | with no write after that read, or none at all when nothing was installed, the copy is the stored mapping |
| TeamsRefresh.CurrentExactly | internal/server/admin.go:192-238 | for mappings that never recur, only then |
| TeamsRefresh.CopiesAgreeExactly | internal/server/admin.go:220-238 | the server and the fleet use one mapping iff nothing was written between the reads of their last installers, for mappings that never recur |
| TeamsRefresh.OverlapInstallsStale | internal/server/admin.go:224-237 | the overlapping run that ends with the older mapping in a copy |
| TeamsRefresh.OverlapSplitsCopies | internal/server/admin.go:229-237 | the overlapping run that ends with different mappings in server and fleet |
| ReportCache.Server.GetReport | internal/server/server.go:187-223 | reply, post, cache, counters, duration and history after a read, with or without a history store; a fixture touches nothing; when a read runs the analysis is stated by `ReportRuns.ReadRunsExactly` |
| ReportCache.Server.RefreshTeams | internal/server/admin.go:220-238 | a new mapping drops the cache and is handed on to the fleet, a failed read changes nothing |
| ReportCache.AnalysisStampsOwners | internal/analyzer/analyzer.go:88-106 | helper: every mapped namespace of an analyzed report carries its mapped team |
| ReportCache.CacheIsCurrent | internal/server/server.go:187-223 | after any operations a cached report is the last successful run's, computed with the current mapping |
| ReportCache.ServedFreshAndOwned | internal/server/server.go:193-195 | a reply without a run repeats one that ended less than the TTL ago with today's ownership |
| ReportRuns.ReadRunsExactly | internal/server/server.go:187-207 | after any operations a read runs nothing iff it is not forced, some run succeeded less than the TTL ago and neither a later run did nor a mapping was installed since; otherwise it runs once and answers with this run's analysis or an error |
| ReportRuns.RepeatIsExact | internal/server/server.go:193-195 | in the first case the answer is that run's report, owners included |
| ReportRuns.DurationIsLast | internal/server/server.go:199-201 | the duration shown is that of the last run, failed ones included, and zero before the first |
| ReportRuns.MappingIsLatest | internal/server/admin.go:229-234 | the mapping in use is the last one installed, or the configured one |
| ReportRuns.AnalysisExactly | internal/analyzer/analyzer.go:88-106 | which team each namespace gets from the mapping and from labels, and that nothing else changes |
| ReportRuns.PostedIsAppeared | internal/server/server.go:206-221 | a read posts the whole list of findings its run adds to the report before, in order, and nothing otherwise |
| ReportCache.RepliesCarryCurrentOwners | internal/server/admin.go:229-234 | any reply carries the current owner of every mapped namespace |
| ReportCache.FailureKeepsCache | internal/server/server.go:199-205 | helper: a failed run is an error and touches the counters and the duration only |
| ReportCache.RunsAccounted | internal/server/server.go:201-208 | runs = errors + successes, and the history is what was loaded plus the successes in order |
| ReportCache.ReadPostsNews | internal/server/server.go:206-221 | after any operations a read posts exactly the keys its report has and the last report of the history had not; nothing from the cache, on failure or without one |
| Certificates.IndexSecrets | internal/checks/certificates.go:33-45 | which secrets exist and the last parsed expiry of each |
| Certificates.Visit | internal/checks/certificates.go:56-79 | one reference: the remembered keys and the findings after it |
| Certificates.Check | internal/checks/certificates.go:29-135 | the secret findings, in order, at the first reference of each troubled secret, and then the cert-manager ones |
| CertificateReports.FindingsInOrder | internal/checks/certificates.go:47-115 | findings stand in the order of the first references of their secrets, name the ingress or gateway that refers first, and say what is wrong |
| CertificateReports.ReferencesInOrder | internal/checks/certificates.go:47-91 | every non-empty TLS reference of an analysed ingress, then every one of an analysed gateway, each in its own order and none left out |
| CertificateReports.LookupExactly | internal/checks/certificates.go:33-45 | a secret is known iff one of that namespace and name is listed, with the last certificate among them that parses |
| Certificates.CheckReady | internal/checks/certificates.go:185-202 | why a cert-manager Certificate is not ready |
| Certificates.ReadyExactly | internal/checks/certificates.go:185-202 | it is ready iff its first Ready condition is true |
| CertificateReports.ReasonExactly | internal/checks/certificates.go:185-202 | the reason given is that of the first Ready condition, or that there is none |
| CertificateReports.UnreadyExactly | internal/checks/certificates.go:117-134 | a Certificate is complained about iff its namespace is analysed and its first Ready condition is not true or missing |
| CertificateReports.UnreadyInOrder | internal/checks/certificates.go:117-134 | these are listed in order, each once, with its reason |
| Certificates.ReportedExactlyOnce | internal/checks/certificates.go:47-115 | for any references in any order a key has one finding, stating its trouble, iff it is referenced and in trouble |
| Certificates.CheckedExactlyOnce | internal/checks/certificates.go:29-164 | a secret is reported iff an analysed ingress or gateway names it and it is missing with secret access or has under 30 days left, and never twice |
| Certificates.KeyIsOneSecret | internal/checks/certificates.go:38 | for namespaces without '/' a key is one secret of one namespace |
| Certificates.ExpiryEscalates | internal/checks/certificates.go:137-164 | less time left is never less severe; silent from 30 days |
| Views.Finalize | internal/report/model.go:177-201 | the summary counts every finding by severity |
| Views.SummaryAddsUp | internal/report/model.go:142-201 | the total is the sum over severities and the number of findings a diff walks; the score is 0 to 100, and 100 iff nothing is above OK |
| ViewContents.SummaryExactly | internal/report/model.go:177-201 | each count is the number of positions with that severity |
| ViewContents.SameWalk | internal/report/model.go:192-197 | summary and renderers go through the same findings in the same order as the diff |
| ViewContents.GradeExactly | internal/report/model.go:135-163 | a critical finding costs 15 points, a warning 4, an info 1; the grade is A up to 10 points lost, B, C and D for ten more each, then F |
| Views.BuildSuite | internal/report/junit.go:44-63 | one suite: its cases, its tests and its failures |
| Views.BuildJUnit | internal/report/junit.go:41-71 | no empty suite; tests = total, failures = warnings + critical |
| ViewContents.SuitesInOrder | internal/report/junit.go:41-71 | one suite per namespace or section with findings, in order |
| ViewContents.SuiteExactly | internal/report/junit.go:44-63 | one case per finding under its message, failing iff it is a warning or critical; the suite counts both |
| Views.AddResult | internal/report/sarif.go:80-137 | one finding: its result and, if new, its rule |
| Views.BuildSarif | internal/report/sarif.go:71-137 | the results in order; rules without repetition, exactly those some result names, with their descriptions |
| ViewContents.ResultsExactly | internal/report/sarif.go:80-132 | the results are the problems of each namespace and section one after the other, each with its rule, severity, text with hint, object or place, and diff key |
| ViewContents.RulesInOrder | internal/report/sarif.go:80-92 | the rules stand in the order in which they are first needed, with the title of the group that first needs them |
| Views.ResultsCount | internal/report/sarif.go:91-101 | results = findings minus OK findings |
| Views.Tally | internal/server/metrics.go:85-90 | the count array by severity |
| Views.FindingRows | internal/server/metrics.go:79-101 | four rows per list of findings |
| ViewContents.RowsExactly | internal/server/metrics.go:79-101 | the four rows of each namespace and section: its labels and its count of each severity |
| Views.RowsSum | internal/server/metrics.go:79-101 | the rows of a severity add up to its findings |
| Views.ViewsAgree | internal/report/model.go:177-201 | summary, SARIF results and metric rows agree for every severity |
| Filters.FilterControls | internal/report/model.go:221-242 | keeps the findings with a control under the prefix, for any case table, in every list, and recounts |
| FilterContents.ControlsExactly | internal/report/model.go:221-242 | every namespace and section stays, with exactly the findings some control of which begins with the prefix letter by letter up to case, in order; the rest of the report is unchanged and the summary recounted |
| Filters.FilterTeam | internal/report/model.go:247-257 | keeps the team's namespaces, drops the sections, and recounts |
| FilterContents.TeamExactly | internal/report/model.go:247-257 | exactly the namespaces of the team stay, whole and in order, and no section |
| Filters.FiltersCommute | internal/report/model.go:221-257 | the two filters commute, and so do two control filters, summaries included |
| Filters.FiltersIdempotent | internal/report/model.go:221-257 | filtering twice changes nothing more |
| Filters.FiltersNeverLowerScore | internal/report/model.go:142-257 | no filter lowers the score |
| Manifest.Loader.Add | internal/manifest/load.go:111-202 | a document of any nesting adds what its leaves add one by one, or fails with their first error |
| Manifest.Loader.AddItems | internal/manifest/load.go:120-132 | the same for a sequence of documents |
| Manifest.Loader.AddObject | internal/manifest/load.go:134-202 | what one object stores, which namespace it makes known, when it fails |
| ManifestContents.EverydayExactly | internal/manifest/load.go:134-230 | objects of the fifteen namespaced kinds are stored in their namespace or "default", which becomes known, and fail iff they do not decode |
| ManifestContents.GatewayExactly | internal/manifest/load.go:180-198 | Gateway API objects are stored so iff their version is of the standard group, and never fail |
| ManifestContents.ClusterWideExactly | internal/manifest/load.go:141-180 | roles and namespaces are stored as they are, the latter make themselves known, other kinds are skipped |
| ManifestContents.KeptInOrder | internal/manifest/load.go:111-202 | what is stored comes from the leaves in order, one object each |
| ManifestContents.FirstErrorExactly | internal/manifest/load.go:111-202 | loading fails with the error of the first leaf that has one |
| ManifestContents.OfKindInOrder | internal/manifest/load.go:139-202 | each of the snapshot's lists has the stored objects of its kind, in order |
| Manifest.Loader.SynthesizePods | internal/manifest/load.go:236-259 | adds the template pods after everything stored, nothing else |
| ManifestContents.PodsInOrder | internal/manifest/load.go:236-259 | one pod for each deployment, then stateful set, daemon set, job and cron job, called after it with "-template", in its namespace and from its template |
| Manifest.Load | internal/manifest/load.go:39-78 | snapshot, sorted namespaces or first error are those of all leaves of all paths in order |
| Manifest.ReadAll | internal/manifest/load.go:94-107 | every document of every source in order, stopping at the first error |
| Manifest.Read | internal/manifest/load.go:85-107 | the documents of one source, then its decoding error if there is one |
| ManifestContents.ManifestExactly | internal/manifest/load.go:61-66 | of a directory the files with the extension yaml, yml or json in any case are read, and no others |
| ManifestContents.SourcesExactly | internal/manifest/load.go:44-107 | what is read for each path, entry by entry, and where an error stands |
| ManifestContents.OneAfterTheOther | internal/manifest/load.go:44-132 | paths, sources, documents and list items are taken one after the other |
| Ordering.SortedNames | internal/manifest/load.go:77 | the sorted names of a set, in whatever order they are met |
| Manifest.ListsFlatten | internal/manifest/load.go:120-132 | a list among documents can be replaced by its items |
| Manifest.NamespacesCovered | internal/manifest/load.go:134-230 | every stored namespaced object is in a returned namespace, and every returned one is used or declared |
| Manifest.OnePodPerWorkload | internal/manifest/load.go:236-259 | exactly one pod per workload, in an analyzed namespace |
| Labels.EscapeReadsBack | internal/server/metrics.go:136-139 | a scraper reads every escaped value back and stops at the quote that ends it |
| Labels.EscapeInjective | internal/server/metrics.go:136-139 | different values stay different |
| Labels.EscapeHasNoNewline | internal/server/metrics.go:136-139 | an escaped value has no raw newline |
| Labels.RowsApart | internal/server/metrics.go:92-93 | no two series of the findings gauge collide, whatever the names are |
| Labels.RowReadsBack | internal/server/metrics.go:92-93 | a scraper finds the labels cluster, section, namespace and severity with their values, in this order and no others |
| Labels.RowOnOneLine | internal/server/metrics.go:92-93 | a series never breaks its line |

## Left out

- Floating point: rightsizing is over exact reals with the program's epsilon; binary rounding and NaN are not modelled.
- Rounding.CPUReadsBack: quantity parsing covers the shapes the printer emits; the general grammar of apimachinery is not part of this model.
- Rightsizing: the wording of messages and the sorting of recommendations by savings.
- JSON, YAML, PEM and X.509 text: documents are datatypes and a written report decodes to itself.
- Paths: cleaning is lexical, as in the program; symbolic links and the working directory are not modelled.
- HistoryStore.Store.New: the directory name is taken literally, without glob metacharacters, and a directory holds only files matching the report pattern; other files are never touched.
- Timestamps.FileNameOrder: for years up to 9999, the ones that encode; times are in UTC before the model starts.
- TeamsRefresh: the mapping a process starts with is taken to be the stored one.
- ReportCache: the history is the full log behind the store, of which `HistoryRuns.StoreIsWindow` shows the store keeps the end.
- FleetManager.Manager.Finish: posting is modelled as handing the findings over; delivery order and webhook time-outs are not.
- Finalize, the filters and the renderers take a report value and return one: sharing of finding slices between reports is not captured.
- TeamsStore.Store.Put: optimistic-concurrency conflicts of the Kubernetes API count as refused writes.
- Certificates.Check: the wording of findings and the scan for certificateRefs inside a gateway object.
- Manifest.Loader.AddObject: which fields a decoded object keeps.
- Manifest.Load: a directory is the list of entries its walk meets.
- Workload, security, node, policy, unused-resource, monitoring, GitOps, deprecation and disruption checks: each is one pass over a snapshot without state that another part relies on.
- Authentication: roles are compared and addresses matched per request, by the standard library.
- Kubernetes clients, provisioning, HTTP routing, cron, SMTP, PDF, HTML, terminal and Markdown rendering, command line and Helm charts.
