# Verified models of the Yurt Dashboard back end

The dashboard's Go server and its React page contain a few real algorithms and protocols. This project models
them in Dafny and proves what they promise.

| file | what it models |
|---|---|
| `values.dfy` | the deep merge of chart values, as a function on trees and as the loop over mutable maps |
| `repo_file.dfy`, `repo_add.dfy` | the Helm repository file with its index cache, and any number of concurrent `repoAdd` calls as a step machine |
| `repo_update.dfy` | `repoUpdate`: the selection loops, and the goroutine fan-out with its unguarded shared failure list |
| `repo_store.dfy` | the store used by one caller at a time (`Store`), any sequence of calls stopped anywhere, and `buildIndex` |
| `overview.dfy` | the fan-out of `GetClusterOverview` over an unbuffered channel, for any number of clients |
| `search_filter.dfy` | the in-place version filter of the repository search |
| `charts.dfy`, `catalogue.dfy`, `market.dfy` | the three passes of the system-app list, the market's grouping loop, and the table both amount to |
| `lab_apps.dfy` | installing, listing, refreshing and uninstalling the Lab apps |
| `guide.dfy` | guided installation of the system apps, with retries |
| `dp_name.dfy` | the deployment-name regular expression |
| `text.dfy`, `table_text.dfy` | splitting and joining, and the delimited-text printer |
| `sequences.dfy`, `option.dfy` | shared notions |

`dafny verify dfyconfig.toml` checks everything.

The environment is adversarial throughout: system calls, API calls, downloads, goroutine schedules and the order in
which Go visits a map are parameters or arbitrary choices, and the theorems hold for all of them. Code that changes
state step by step is a class or a loop proved against a function, and the theorems are about that function;
concurrent code is a step machine with one program counter per call or goroutine, and the theorems quantify over
all schedules.

Some properties one might expect do not hold of the code as it is; for these the exact condition is proved:

- Merging values is not associative. It is, exactly when at every place where the middle map has a non-map value
  between two maps, the first map adds nothing to the last (`MergeAssociativeIff`, `MergeNotAssociative`).
- The error text of `repoUpdate` can omit a failed repository, because goroutines append to a shared slice without a
  lock; it lists exactly the failed ones exactly when no append was torn. Whether an error is returned is always right
  (`ListExactIffNoTornAppend`, `AppendCanBeLost`, `ErrorIffSomeFailed`).
- Guided installation installs an app again although it has a release, if the selection's name filter does not match
  a required app (`SafeSelectionIff`, `OwnTable`).
- The printed event table can be read back only if it has a row and a column, no cell contains a delimiter, and the
  delimiters differ or there is one column (`RecoverableIff`).

## Model

| member | source | states |
|---|---|---|
| Values.EmptyIsIdentity | backend/helm_client/install.go:65-82 | the empty map is a left and right unit of the merge |
| Values.MergeSelf | backend/helm_client/install.go:65-82 | merging a map with itself changes nothing |
| Values.AbsorbedIff | backend/helm_client/install.go:65-82 | a map adds nothing under another exactly when its keys are there, recursively where both hold maps |
| Values.MergeAssociativeIff | backend/helm_client/install.go:65-82 | the exact condition under which two merges can be regrouped |
| Values.MergeAssociative | backend/helm_client/install.go:65-82 | merging is associative if the middle map has no non-map value where both outer maps hold maps |
| Values.MergeNotAssociative | backend/helm_client/install.go:70-80 | without that condition associativity fails on a concrete triple |
| Values.PathLaw | backend/helm_client/install.go:70-80 | what the merge holds at every key path: the later scalar, the merge of two maps, the later map, the earlier value, or nothing below a later scalar |
| Values.MergeMaps | backend/helm_client/install.go:65-82 | the loop over mutable, possibly shared maps yields the merge in every visiting order, writes no existing map, and terminates |
| Values.MergeFileValues | backend/helm_client/install.go:84-94 | an empty file gives the empty map, a parse failure an error, and otherwise the result is exactly the parsed document |
| RepoAdd.StepKeepsInv | backend/helm_client/repo_add.go:51-125 | every step of every call keeps the lock discipline, the fresh view of the file under the lock, and the entries of successful calls |
| RepoAdd.MutualExclusion | backend/helm_client/repo_add.go:51-60 | in every interleaving at most one call is between taking and releasing the lock |
| RepoAdd.FileStaysSound | backend/helm_client/repo_add.go:62-124 | names stay distinct and slash-free, the file only grows, and configured repositories stay cached |
| RepoAdd.NoLostUpdate | backend/helm_client/repo_add.go:90-124 | the entry of a call that returned success is in the file, alone under its name, after every continuation |
| RepoAdd.OneWinner | backend/helm_client/repo_add.go:90-105 | calls succeeding under one name agree on the URL, and one of them wrote the entry |
| RepoAdd.FileIsInitialPlusAdded | backend/helm_client/repo_add.go:120-124 | the file is the initial one followed by exactly one entry per call that added |
| RepoAdd.SuccessNeedsEveryAnswer | backend/helm_client/repo_add.go:37-125 | in every interleaving a call adds only if its directory, lock, read, download and write were all let through, and accepts an existing entry only after a successful read |
| RepoAdd.FailedDownloadNeverAdds | backend/helm_client/repo_add.go:116-118 | a refused download changes nothing, ends in the unreachable reply, and the call changes nothing afterwards, whatever the others do |
| RepoAdd.SomeCallMoves | backend/helm_client/repo_add.go:51-60 | no deadlock: until all calls have returned one can move, and moving brings it closer to its return |
| RepoUpdate.SelectRepos | backend/helm_client/repo_update.go:20-50 | early error exactly for an empty file or an unknown requested name, otherwise the requested entries in file order |
| RepoUpdate.ReturnsAfterAllDownloads | backend/helm_client/repo_update.go:52-63 | the wait ends only when all workers are done, each having downloaded exactly once |
| RepoUpdate.SelectedKeepsOrder | backend/helm_client/repo_update.go:39-50 | the selection keeps file order, every requested position once |
| RepoUpdate.WorkersFollowAnswers | backend/helm_client/repo_update.go:54-62 | a worker has failed exactly when the schedule entry that performed its download carried a refusal |
| RepoUpdate.CacheFollowsAnswers | backend/helm_client/repo_update.go:58 | an answered download leaves the index of its URL, and every other name keeps what it had |
| RepoUpdate.ErrorIffSomeFailed | backend/helm_client/repo_update.go:58-70 | even with torn appends an error is returned exactly when the schedule refused some download |
| RepoUpdate.ListExactIffNoTornAppend | backend/helm_client/repo_update.go:53-68 | the failure list is a permutation of exactly the URLs whose download the schedule refused if and only if no append was torn |
| RepoUpdate.AtomicAppendsAreNotTorn | backend/helm_client/repo_update.go:58-60 | if appends never overlap nothing is torn, so the list is exact |
| RepoUpdate.AppendCanBeLost | backend/helm_client/repo_update.go:58-60 | a schedule in which two downloads fail and one is reported |
| RepoUpdate.RunKeepsCover | backend/helm_client/repo_update.go:54-62 | at every step each configured repository has an index from its own URL, and no index disappears |
| RepoUpdate.SomeActorMoves | backend/helm_client/repo_update.go:52-63 | until the call returns, the caller or some worker can move |
| RepoUpdate.EveryMoveDecreases | backend/helm_client/repo_update.go:52-63 | every move decreases a measure, so every run ends |
| RepoStore.Store.Add | backend/helm_client/repo_add.go:33-126 | a call on its own has the outcome, file and cache of the step machine run to its end |
| RepoStore.AddNewName | backend/helm_client/repo_add.go:37-125 | for every pattern of answers: a new name is added exactly when all five steps go through; otherwise an error, an unchanged file, and a changed cache only after a download |
| RepoStore.AddBadName | backend/helm_client/repo_add.go:85-87 | a name with a slash changes nothing and is reported |
| RepoStore.AddThenRemove | backend/helm_client/repo_remove.go:25-38 | removing a name just added gives back the old file |
| RepoStore.AddTakenName | backend/helm_client/repo_add.go:89-105 | for every pattern of answers: a taken name never changes the file, and which reply it gets |
| RepoStore.Store.Remove | backend/helm_client/repo_remove.go:16-39 | under every pattern of I/O failures: when the call succeeds, and that file and cache then lack exactly the names |
| RepoStore.RemoveCallMeaning | backend/helm_client/repo_remove.go:20-38 | success exactly for a non-empty file, distinct present names and every write and deletion let through; the result; an empty file is reported and left alone |
| RepoStore.RemoveCallFailures | backend/helm_client/repo_remove.go:20-36 | each failing reply: where the call stopped, and that file and cache reflect the names before it |
| RepoStore.MinusKeepsOrder | backend/helm_client/repo_remove.go:25-31 | what is left keeps the file's order, every unnamed position once |
| RepoStore.RemoveReflectsPrefix | backend/helm_client/repo_remove.go:25-36 | wherever the removal stops or fails, file and cache reflect a prefix of the names, the cache at most one behind |
| RepoStore.RemoveSucceedsIff | backend/helm_client/repo_remove.go:25-38 | the removal loop succeeds exactly when the names are distinct and present and every answer is true |
| RepoStore.OpKeepsSound | backend/helm_client/repo_remove.go:25-35 | an add, remove or update, complete or stopped, keeps names distinct and every configured repository cached |
| RepoStore.EveryStepIsSound | backend/helm_client/repo_add.go:116-124 | so does every intermediate step of any sequence of non-overlapping calls |
| RepoStore.IndexSkipsOnlyMissing | backend/helm_client/search_repo.go:92-101 | exactly the selected repositories without an index are skipped, the others keep their order |
| RepoStore.IndexSkipsNothingIff | backend/helm_client/search_repo.go:92-102 | the search index lists every selected repository with its own index exactly if all are covered |
| RepoStore.Store.BuildIndex | backend/helm_client/search_repo.go:81-105 | on a sound disk no selected repository is skipped |
| Overview.StepKeepsInv | backend/k8s_client/public.go:84-115 | every step keeps: received statuses come from distinct finished goroutines and are theirs |
| Overview.ReturnsOneStatusPerClient | backend/k8s_client/public.go:112-117 | on return no goroutine is blocked and the result is, up to order, one status per client |
| Overview.EveryClientIsReported | backend/k8s_client/public.go:89-108 | each returned status reports its own client: a false flag with the message after a failure, the answer otherwise |
| Overview.SomeActorMoves | backend/k8s_client/public.go:84-115 | no schedule deadlocks |
| Overview.EveryMoveDecreases | backend/k8s_client/public.go:84-115 | every move decreases a measure |
| Overview.MovesAreBounded | backend/k8s_client/public.go:84-115 | no schedule moves more than four times per client plus once |
| SearchFilter.ApplyConstraint | backend/helm_client/search_repo.go:121-139 | filtering into the array being read gives the filter of the original contents and leaves the tail unwritten; a bad constraint changes nothing |
| SearchFilter.FilterSelects | backend/helm_client/search_repo.go:127-136 | the filter reads increasing positions, exactly those whose version parses and is admitted |
| Catalogue.Packages.FetchFakePackageInfo | backend/proxy_server/system_app_handler.go:50-70 | the first pass as a fold over the supported names, from any list |
| Catalogue.Packages.FetchRepoPackagesInfo | backend/proxy_server/system_app_handler.go:73-130 | the second pass as a fold over the search results, from any list |
| Catalogue.Packages.FetchInstalledPackagesInfo | backend/proxy_server/system_app_handler.go:133-172 | the third pass as a fold over the releases, or an error and no change |
| Catalogue.Packages.GetSystemAppList | backend/proxy_server/system_app_handler.go:192-202 | on an empty list the three passes give the declarative table |
| Catalogue.PassesGiveTable | backend/proxy_server/system_app_handler.go:50-172 | each row shows its last release, else its first search result, else the placeholder; supported charts first, then the others by first appearance |
| Catalogue.TableRows | backend/proxy_server/system_app_handler.go:50-172 | chart names are distinct and exactly the supported ones are marked fully supported |
| Catalogue.OthersInOrderOfAppearance | backend/proxy_server/system_app_handler.go:145-170 | the appended charts are the distinct unsupported installed ones in order of first appearance |
| Catalogue.RepoPassNeverAppends | backend/proxy_server/system_app_handler.go:97-128 | the append branch of the second pass is never taken, from any list |
| Market.GroupResults | backend/proxy_server/market_handler.go:205-240 | the map-based loops give the stable group-by and its number of rows |
| Market.GroupedRows | backend/proxy_server/market_handler.go:205-240 | rows are distinct, in order of first occurrence, one per found chart, and show the first version of their group |
| Market.RowShowsFirstResult | backend/proxy_server/market_handler.go:215-225 | a row shows its chart's first result: description, version, and as repository the part of its name before the first slash |
| Market.GroupLengthsSum | backend/proxy_server/market_handler.go:208-233 | every result lands in exactly one group |
| Market.SameVersionsAsCatalogue | backend/proxy_server/system_app_handler.go:84-129 | for a supported chart both groupings list the same versions |
| LabApps.Cluster.InstallApp | backend/proxy_server/resource_handler.go:149-215 | installation under every failure pattern: new store, reply, what is created, nothing altered, and what an error may leave |
| LabApps.InstallCreates | backend/proxy_server/types.go:32-249 | field by field, when an installation succeeds and which deployment, service and MySQL objects it creates |
| LabApps.Cluster.UninstallApp | backend/proxy_server/resource_handler.go:217-264 | uninstallation under every failure pattern |
| LabApps.InstallKeepsEverything | backend/proxy_server/resource_handler.go:165-211 | no object that existed before is deleted or altered |
| LabApps.InstallErrorLeavesNothing | backend/proxy_server/resource_handler.go:191-210 | after an error only the MySQL helpers can be left, and the main deployment only if the compensating delete was refused |
| LabApps.MainDeploymentLeftIff | backend/proxy_server/resource_handler.go:199-210 | exactly when an error leaves the main deployment |
| LabApps.UninstallOnlyDeletesOwn | backend/proxy_server/resource_handler.go:231-262 | uninstalling deletes only the app's own objects, and exactly when it succeeds |
| LabApps.UninstallDeletes | backend/proxy_server/resource_handler.go:231-259 | exactly what it deletes under every pattern of refusals |
| LabApps.FirstDeploymentIff | backend/proxy_server/resource_handler.go:129-134 | the reported deployment is the first in the list with the app's two labels |
| LabApps.PointToFirstDeployment | backend/proxy_server/resource_handler.go:129-134 | the pointer to the loop variable holds the first matching deployment after the loop |
| LabApps.GetApps | backend/proxy_server/resource_handler.go:120-145 | after all loops every report shows the first matching deployment and service |
| LabApps.UpdateConfigList | frontend/src/components/Lab/Lab.jsx:90-108 | the configuration objects are refreshed in place and returned in page order, others untouched |
| LabApps.InstalledAppIsShown | backend/proxy_server/resource_handler.go:126-142 | whatever calls were refused, an app whose deployment is there is shown with its own deployment and service, never the MySQL helper's |
| LabApps.InstallListUninstall | backend/proxy_server/resource_handler.go:217-264 | install under any failure pattern that left the deployment, then list, refresh, uninstall, restores the original store |
| LabApps.SuccessLeavesDeployment | backend/proxy_server/resource_handler.go:191-214 | a successful installation is such a pattern, and with every call let through it succeeds |
| LabApps.NotInstalledKeepsConfig | frontend/src/components/Lab/Lab.jsx:101-105 | without a deployment of the app its configuration stays as it is |
| LabApps.RetriesConverge | backend/proxy_server/resource_handler.go:149-215 | after any number of failed attempts whose deletes went through, only MySQL helpers are added and a retry ends where a first attempt would |
| Guide.Server.ListCharts | backend/helm_client/list.go:61-88 | exactly the charts with a deployed, pending or failed release that the name filter lets through |
| Guide.FilterMatchesIff | backend/helm_client/list.go:61-74 | the filter matches exactly the charts that contain a selected name, or all |
| Guide.Server.WaitYurtManager | backend/proxy_server/system_app_handler.go:248-266 | polls in order until the first that finds the manager ready, and not more than 600 times |
| Guide.PollReadyIff | backend/proxy_server/system_app_handler.go:252-263 | a poll ends the wait exactly if it succeeded and its first yurt-manager deployment has its replicas available |
| Guide.WaitingIsWait | backend/proxy_server/system_app_handler.go:249-265 | the wait ends with the first such poll, else after 600 |
| Guide.Server.InstallFromGuide | backend/proxy_server/system_app_handler.go:268-324 | the handler's loop under every answer of the cluster |
| Guide.LoopFollowsPlan | backend/proxy_server/system_app_handler.go:303-320 | a call installs the wanted, unlisted apps in table order, all of them or up to the first failure |
| Guide.InstallsOnlyWanted | backend/proxy_server/system_app_handler.go:303-306 | nothing is installed that is neither required nor selected, or that was listed |
| Guide.CallMeaning | backend/proxy_server/system_app_handler.go:279-323 | exactly when a call replies success, and that it only adds releases of the apps it installed |
| Guide.FailureMeaning | backend/proxy_server/system_app_handler.go:307-316 | the app a failing call stopped at, and what the failure left of it |
| Guide.SuccessCoversWanted | backend/proxy_server/system_app_handler.go:303-323 | a success reply leaves an active release for every required or selected app |
| Guide.InstallsComeAfterWait | backend/proxy_server/system_app_handler.go:317-319 | after installing yurt-manager no later install starts before its wait has ended |
| Guide.NeverInstalledAgain | backend/proxy_server/system_app_handler.go:285-306 | over any retries and failures an app with an active release is not installed again |
| Guide.SafeSelectionIff | backend/helm_client/list.go:61-74 | that is so exactly for selections whose filter matches every required app |
| Guide.OwnTable | backend/proxy_server/system_app_config.go:22-51 | the program's table has distinct names; selecting its required apps is safe, selecting only raven-agent is not |
| DpName.RegexMeansDnsSubdomain | frontend/src/components/Lab/Lab.jsx:293-296 | the expression accepts exactly the dot-separated lists of DNS labels |
| DpName.AutomatonDecidesRegex | frontend/src/components/Lab/Lab.jsx:293-296 | a one-pass automaton decides the same language |
| TableText.Grid | frontend/src/utils/utils.js:9-12 | a cell shows what the row holds at its column's dataIndex |
| TableText.RecoverableIff | frontend/src/utils/utils.js:3-14 | exactly which tables can be read back from the printed text |
| TableText.DefaultTextRecoverable | frontend/src/utils/utils.js:6-7 | so for a semicolon and a line break, the defaults |
| TableText.PrintingIsInjective | frontend/src/utils/utils.js:3-14 | two such tables that print the same text are the same |

## Left out

- HTTP, request parsing, logging, OAuth, Kubernetes and Helm client internals: reduced to stores and to answers of the environment.
- Helm library behaviour is assumed, not proved: list semantics of the repository file, a failed write or download changes nothing, a release name in use is refused, yurt-manager's replica count is always present.
- Repository entries have a name and a URL only, which is all the callers set; a malformed repository file counts as a failed read.
- Concurrent `repoRemove` with `repoAdd`: removal takes no lock, so nothing is claimed for that overlap.
- A crash in the middle of writing the repository file.
- Version parsing and constraints, search scoring: abstract functions.
- Guide.Server.ListCharts: selected names are matched literally as parts of a chart name; regular-expression characters in a name are not modelled.
- Other users changing releases or the namespace during or between the modelled calls.
- LabApps.UpdateConfigList: of a deployment's labels only `app` reaches the configuration; other label keys that the page would copy are not modelled.
- The `EdgeXFoundry` case has no deployment to post; the model has the cluster refuse the empty object. Service names are lower-cased for ASCII letters only.
- Pointers to loop variables follow Go 1.18, the version in backend/go.mod: one variable per loop statement.
- The length limits of DNS names, which the page's expression does not check either; the port and node checks of the same form.
- Slice headers in the failure list: a torn append is a lost update of a value. Sleeps and timeouts are steps.
- Other handlers (market install and uninstall, system-app uninstall, default values), user registration and trial times, health counters, page components: they would only add easy members.
