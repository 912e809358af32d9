# Verified model of the HCP core services

The project models, in Dafny, the stateful core of a hardware version-control
platform and proves what it guarantees over whole runs of calls:

- **HOS version control**: commits in a graph, branches, the ancestor search, diff, merge with
  conflicts, per-conflict resolution and late completion, scene snapshots, and the two
  representations of a commit (snapshot rows and a JSON tree).
- **S-expression reader**: tokenizer, parser and searches.
- **Rate limiter**: the in-memory sliding window and the minute buckets.
- **Object store, lifecycle and event log**: content-addressed uploads, the audited lifecycle,
  idempotent publishing inside a database session, and cursor polling.

## How it is built

| file | content |
|---|---|
| CommitGraph | parent links, ancestors, the two walks of `find_lca` and what they find |
| Hnf, CommitContents | a snapshot as payload, row, diff value and JSON entry; what a commit stores |
| MergeRules, Diff | the algebra of two commit states |
| Repository | all tables as one value, each call as a step, the invariant, runs |
| CommitTheorems, ConflictTheorems | what commits hold, and what becomes of the user's choices |
| MergeTheorems, HistoryTheorems | what merges and branch heads guarantee |
| FieldTheorems | what each conversion makes of each key |
| HosVersionControl | the service class; each method takes exactly the step of Repository |
| Sexpr, RateLimit | the reader and the limiter |
| Lifecycle, EventLog, ObjectStore, ObjectTheorems, ObjectOutcomes, ObjectService | the object side, in the same layout |
| Examples | runs from empty tables that show where merging falls short |
| Wrappers, StringOrder, NumberText | options and results; the order in which Python sorts paths; texts that read as numbers |

A call that raises is rolled back by its caller, so a step that returns an error leaves the tables
as they were (blobs and used-up sequence numbers excepted). Ids that the source draws as random
UUIDs are numbers in order of creation; SHA-256 and uuid5 are functions without collisions. JSON
values are equal when Python's are, so true, 1 and 1.0 are one number.

## Findings

Things a reader of the source may expect that do not hold. Each is stated with its exact condition;
the lemmas named include the inputs and runs that show them.

- `find_lca` returns the nearest common ancestor in hops, which on a graph with merges need not be
  the lowest one (`NearestIsNotAlwaysLowest`). Only the recorded base value depends on it.
- A merge does not always read back as the merged tree. It does exactly when every value has the
  keys of a first-version row, with a version number that is null or a whole number (`CleanMergeReadsBackIff`, and
  `FinalisedAsOpened` for a late completion). The validator is lax: it drops a value whose version
  number it cannot read, and turns an integer text such as "7" into the number (`StoredFromRows`).
  Such version numbers come from free-form properties (`UnusableIsDropped`).
- Merging a clean result back into the other branch conflicts exactly where the source's version
  number is an integer text (`MergeBackIsCleanIff`, `IntegerTextConflictsBack`).
- `validate_object_snapshot` says that it never raises (api/app/services/hnf.py:39), but it calls
  `int()` on a version number that the validator has accepted, and "7.0" passes the one and not the
  other. Then every merge that would commit the object fails (`MergeOutcome`, `PointTextBlocksMerge`).
- Completing a merge after its target branch has moved on drops the newer commits from the branch's
  history. History is kept exactly when the branch head is in the history of a recorded head
  (`FinalisationKeepsHistoryIff`, `NewerHeadIsNotRecorded`, `LateCompletionDropsCommit`); when every
  call of a run keeps it, every branch's history only grows (`RunGrows`).
- A version that was rejected once never leaves draft again: the event of its first submission is
  still in the log, and publishing it again rolls the step back (`RejectedStaysInDraft`,
  `RejectionIsReached`). When no client publishes lifecycle events, a step on a live object takes
  effect exactly when the table and the role allow it and it was not taken before
  (`OwnStepTakesEffectIff`); a step whose event a client publishes first is never taken
  (`PublishedStepIsNeverTaken`). A step on a version of a deleted object writes no event
  (`StepIsAllOrNothing`, `DeletedStepIsUnlogged`); only the router prevents it.
- A client that publishes the event of a commit's scene snapshot first takes the snapshot away for
  good: a request then returns a snapshot that is not there, because the refused event undoes it. A
  request takes effect exactly when the event is not in the log yet (`SceneTakesEffectIff`,
  `AnnouncedStaysBare`, `AnnouncedSceneIsLost`). The event of an upload names an id drawn in the same
  call and is never refused (`UploadTakesEffectIff`).
- The bucketed limiter admits up to twice its limit within a second (`TwiceTheLimitIsReached`), and
  never more than that within a minute (`AtMostTwiceTheLimit`).

## Model

| member | source | states |
|---|---|---|
| CommitGraph.CollectAncestors | api/app/services/hos_version_control.py:96-104 | the first walk ends on any finite parent relation, cyclic or dangling, and collects exactly the ancestors |
| CommitGraph.QueueShrinks | api/app/services/hos_version_control.py:106-112 | each round of the second walk, which has no visited set, lowers the number of parent paths over the queue by one |
| CommitGraph.FindLcaByWalking | api/app/services/hos_version_control.py:87-113 | the two deque loops end on every acyclic graph and compute the search of which the next rows speak |
| CommitGraph.LcaNoneIffUnrelated | api/app/services/hos_version_control.py:106-113 | nothing is returned exactly when the commits share no ancestor, each being its own |
| CommitGraph.LcaIsNearest | api/app/services/hos_version_control.py:106-113 | otherwise a common ancestor at the least hop distance from the second commit |
| CommitGraph.LcaIsLowestOnSingleParentHistory | api/app/services/hos_version_control.py:96-113 | on a single-parent history every common ancestor is an ancestor of the result |
| CommitGraph.NearestIsNotAlwaysLowest | api/app/services/hos_version_control.py:87-113 | a graph with a merge on which the result is not the lowest common ancestor |
| Hnf.PayloadRoundTrip | api/app/services/hnf.py:246-303 | a row's value sent through payload, validation and storage is rejected exactly when its version number is neither null nor a whole number nor an integer text; otherwise it comes back with an integer text turned into its number and all else unchanged |
| NumberText.IntegerTextIff | api/app/services/hnf.py:24 | a text is accepted as an integer exactly when it is whitespace, a sign, digits in groups joined by single underscores, perhaps a point with zeros, whitespace; and it stands for the number whose decimal digits those are, after zeros |
| Hnf.FromRowIff | api/app/services/hnf.py:290-303 | the keys of a value tell exactly whether a first-version row decodes to it |
| Hnf.StoredUnchangedIff | api/app/services/hnf.py:246-303 | storing any value, keys unknown to the service included, leaves it unchanged exactly when it has the keys of a first-version row, with a version number that is null or a whole number |
| Hnf.DecodeEncodeIdempotent | api/app/services/hnf.py:126-149 | reading any JSON entry that reads without raising, and writing it again, is idempotent, empty fields counting as absent |
| Hnf.RowAndEntryAgree | api/app/services/hnf.py:75-91 | a snapshot's row and JSON entry describe the same object if and only if the type is non-empty and the properties hold no version number |
| Hnf.SceneKeyKeepsState | api/app/services/scene_graph.py:372-377 | writing the scene reference into a commit's tree does not change the state the commit stands for |
| FieldTheorems.ValidIff | api/app/services/hnf.py:18-29 | which payloads the validator accepts, and which value of each key it takes over |
| FieldTheorems.WarnedIff | api/app/services/hnf.py:38-56 | a listed snapshot is warned about exactly when it is invalid, its path or type is empty, or its version number is below 1 |
| FieldTheorems.RowDecodesTo | api/app/services/hnf.py:246-303 | the row of a snapshot decodes to its own values, null where it has none, the version number taken out of the properties |
| FieldTheorems.PayloadOf | api/app/services/hos_version_control.py:631-645 | the payload of a value: null for missing keys, the default type and no references when those are missing |
| FieldTheorems.EntryOf | api/app/services/hnf.py:75-91 | the JSON entry of a snapshot: the type always, every other key unless missing or empty |
| FieldTheorems.EntryReads | api/app/services/hnf.py:126-149 | which JSON entries can be read and what is read; `hnf_type` wins over `kind`, both over the default |
| CommitContents.PersistSnapshots | api/app/services/hnf.py:234-277 | the storing loop yields one first-version row per valid snapshot; it fails exactly when collecting the warnings of one raises, or else on a repeated path or a reference to an unknown object or version |
| CommitContents.TreeSnapshotsDistinct | api/app/services/hnf.py:126-149 | reading a JSON tree yields snapshots with distinct paths, one for every object entry outside the reserved keys |
| CommitContents.BuildTree | api/app/services/hos_version_control.py:258-264 | the tree-building loops: snapshot entries win over request entries, then the root and warning keys (CommitKeepsTree says what is at each path) |
| CommitTheorems.CommitIsMadeIff | api/app/services/hos_version_control.py:226-324 | the first check that fails decides the answer: role, project, branch, parents, tree, version numbers, paths and references, repeated parents; when none does, the commit is made |
| CommitTheorems.KnownIsRegistered | api/app/services/objects.py:86-171 | over any run, the objects and versions that a commit may name are exactly those added so far |
| CommitTheorems.CommitLands | api/app/services/hos_version_control.py:229-308 | the commit is the head of its branch with the parents asked for, by default the former head, and nothing else changes |
| CommitTheorems.CommitStoresRows | api/app/services/hos_version_control.py:248-296 | it has a first-version row for each snapshot its request brings, the valid ones of the list or the objects of a bare tree, and no other |
| CommitTheorems.CommitKeepsTree | api/app/services/hos_version_control.py:130-139 | its tree holds the warnings and the root when there are any, at every other path the snapshot brought for it, else what the given tree has there, and nothing more |
| CommitTheorems.CommitStandsForRows | api/app/services/hos_version_control.py:115-128 | a commit that brings snapshots stands for their rows |
| CommitTheorems.CommitStandsForTree | api/app/services/hos_version_control.py:115-128 | one that brings none stands for the objects of the given tree, and is unreadable exactly when one of them is |
| CommitContents.DumpRoundTrip | api/app/services/hos_version_control.py:290-296 | snapshots read from a tree survive being dumped and validated again, all of them and unchanged |
| CommitContents.RepresentationsAgree | api/app/services/hos_version_control.py:248-296 | in a commit with distinct paths, row and JSON entry at every unclaimed path decode to the same object under exactly the condition of RowAndEntryAgree |
| CommitContents.BuildPayloads | api/app/services/hos_version_control.py:631-645 | the payload loop of a merge, one payload per path |
| CommitContents.StoredReadsBack | api/app/services/hos_version_control.py:115-128 | committing the payloads of any tree and reading the commit's state gives exactly the entries that validate, as stored |
| CommitContents.StoredFromRows | api/app/services/hos_version_control.py:557-570 | for values read from rows that is the tree without the values whose version number is unusable, integer texts turned into numbers |
| CommitContents.StoredIsTreeIff | api/app/services/hos_version_control.py:631-645 | for any tree, chosen values included, that is the tree itself exactly when every value has the keys of a first-version row and a plain version number |
| CommitContents.PayloadsRaiseIff | api/app/services/hnf.py:38-56 | storing the payloads of a tree raises exactly when a valid value has a text with a point as version number |
| CommitContents.PayloadsDangleIff | api/app/models/db.py:486-491 | storing them breaks a foreign key exactly when a valid value names an unknown object or version |
| MergeRules.Classify | api/app/services/hos_version_control.py:510-520 | the classification loop: the join in which ours stays, and a conflict row for exactly the shared paths that differ (MergeOutcome says what is in a row) |
| MergeRules.Rebuild | api/app/services/hos_version_control.py:696-705 | the rebuilding loop computes the final tree or the error of an unusable resolution (FinalTreeResolves says what the tree holds) |
| ConflictTheorems.ResolveRecordsChoice | api/app/services/hos_version_control.py:773-799 | a resolve call that succeeds records the caller's choice in the row of its path; every other row and every other merge stays as it was |
| ConflictTheorems.RowAfterRun | api/app/services/hos_version_control.py:773-799 | over any run a row keeps its base and both sides and carries the choice of the last call for its path that succeeded |
| ConflictTheorems.FinalTreeResolves | api/app/services/hos_version_control.py:620-629 | the rebuilt tree holds ours, theirs or the given value on each path that differs, as its row's choice says, elsewhere ours if there is one, else theirs; there is one exactly when every choice names a value |
| MergeRules.SwapSides | api/app/services/hos_version_control.py:510-520 | exchanging the sides exchanges ours and theirs in every row; the joins are equal exactly when nothing conflicts |
| Diff.ComputeDiff | api/app/services/hos_version_control.py:425-461 | the diff loop over the sorted paths |
| Diff.ApplyDiff | api/app/services/hos_version_control.py:425-461 | applying the difference of two states to the first yields the second |
| Diff.DiffIsInvertible | api/app/services/hos_version_control.py:425-461 | the reverse difference exchanges added and removed, and undoes the first |
| Diff.DiffIsExact | api/app/services/hos_version_control.py:425-461 | entries are strictly sorted, one for each path whose value differs |
| StringOrder.BeforeIff | api/app/services/hos_version_control.py:427 | the order of the paths: by the first character that differs, shorter first |
| Repository.StepKeeps | api/app/services/hos_version_control.py:212-341 | every call, raising or not, keeps the invariant, and keeps every commit's parents, rows and state and every merge's recorded heads |
| Repository.EveryRun | api/app/services/hos_version_control.py:522-547 | in every run: merged exactly with a result; in conflict only with an unresolved row; rows exactly the differing shared paths of the recorded heads; heads and parents name commits of the same project |
| Repository.ResultIsFinal | api/app/services/hos_version_control.py:661-668 | once set, a merge's result and status survive every later call |
| Repository.RunKeeps | api/app/services/hos_version_control.py:773-810 | the invariant and what never changes hold over every run of calls |
| Repository.NamesStayUnique | api/app/services/hos_version_control.py:141-184 | branch names stay unique per project in every run |
| CommitTheorems.BranchIsMadeIff | api/app/services/hos_version_control.py:141-184 | a branch is made exactly by an editor, in a project, from one of its commits if any, under a free name, and starts at that commit |
| CommitTheorems.MergeIsLetThroughIff | api/app/services/hos_version_control.py:463-508 | when a merge is refused before anything is compared |
| CommitTheorems.ResolveIsLetThroughIff | api/app/services/hos_version_control.py:773-810 | when a resolve call is refused; while another conflict is open, or the merge is complete, it only records the choice |
| CommitTheorems.SceneIsLetThroughIff | api/app/services/scene_graph.py:292-404 | when a scene snapshot is refused, and the format recorded when it is not |
| Repository.ScenesStay | api/app/services/scene_graph.py:313-377 | in every run a recorded scene snapshot stays, its commit's tree keeps pointing at it, and further requests for the commit change nothing |
| Repository.SceneTakesEffectIff | api/app/services/scene_graph.py:392-403 | after any run a request that passes its checks records a snapshot and points the tree at it exactly when the snapshot's event is not in the log, and else changes nothing |
| Repository.AnnouncedStaysBare | api/app/services/events.py:59-72 | a commit whose event was published without a snapshot never gets one in any later run |
| CommitTheorems.SceneIsTakenIff | api/app/services/scene_graph.py:300-403 | over any call, a commit gets a scene snapshot exactly by a request for it that passes its checks while the event is not in the log, and the event gets there by such a request or by a client |
| MergeTheorems.MergeOutcome | api/app/services/hos_version_control.py:463-618 | a merge is clean exactly when the states agree on shared paths, fails exactly when both heads are one commit, or a version number of the clean join raises or a value of it names an unknown object; its result holds the join, or its rows are exactly the differing shared paths, each with ours, theirs, the value in the nearest common ancestor if it has one, and no choice |
| MergeTheorems.RowBackedMergeSucceedsIff | api/app/services/hos_version_control.py:549-580 | a clean merge of two row-carrying heads never breaks a foreign key and succeeds exactly when no version number raises |
| MergeTheorems.CleanMergeReadsBackIff | api/app/services/hos_version_control.py:549-580 | a clean merge reads back as the join if and only if all its values have the keys of first-version rows and null or whole version numbers; of row-carrying heads it reads back as the join without unusable and with converted version numbers |
| MergeTheorems.SwappedMerge | api/app/services/hos_version_control.py:463-618 | exchanging target and source gives the same result state, or the same conflict paths with sides exchanged |
| MergeTheorems.MergeBackIsCleanIff | api/app/services/hos_version_control.py:549-580 | merging a clean result of heads that carry rows or no objects back into the other branch always succeeds, conflicts on exactly the paths where the source's version number is an integer text, and without one yields the same state |
| MergeTheorems.LcaWithOwnMerge | api/app/services/hos_version_control.py:87-113 | the nearest common ancestor of a commit and a merge of it is one of the merged heads |
| MergeTheorems.FinalisedAsOpened | api/app/services/hos_version_control.py:672-733 | whatever run lies between opening and completing a merge, the result holds on each path that differed at the opening what the last choice made for it names, elsewhere ours if there was one, else theirs; it reads back as that tree exactly when all values have the keys of first-version rows and plain version numbers |
| MergeTheorems.LastResolveSucceedsIff | api/app/services/hos_version_control.py:773-810 | resolving the last conflict completes the merge exactly when the choices, the new one included, stand for a tree in which no version number raises and no value names an unknown object; otherwise the call fails and stays undone |
| MergeTheorems.HeadStateFromRows | api/app/services/hnf.py:290-303 | every value of a head that carries rows decodes from a first-version row |
| HistoryTheorems.NewCommitKeepsHistoryIff | api/app/services/hos_version_control.py:298-308 | a new head keeps a history exactly when it descends from it through a parent |
| HistoryTheorems.DefaultCommitKeepsHistory | api/app/services/hos_version_control.py:231-246 | a commit without named parents only adds to its branch's ancestors |
| HistoryTheorems.CleanMergeKeepsHistory | api/app/services/hos_version_control.py:551-580 | a clean merge keeps the target's ancestors and brings in the source's |
| HistoryTheorems.FinalisationKeepsHistoryIff | api/app/services/hos_version_control.py:707-733 | a late completion keeps the target's ancestors exactly when its current head is in the history of a recorded head |
| HistoryTheorems.UnmovedHeadIsRecorded | api/app/services/hos_version_control.py:672-680 | a head that has not moved since the opening meets that condition |
| HistoryTheorems.NewerHeadIsNotRecorded | api/app/services/hos_version_control.py:672-689 | a head newer than both recorded heads is not, so its commits are dropped |
| HistoryTheorems.RunGrows | api/app/services/hos_version_control.py:231-246 | over any run whose calls keep the history of the branch they move, merges always doing so, the ancestor set of every branch head only grows |
| HistoryTheorems.UsualCallsKeepHistory | api/app/services/hos_version_control.py:672-733 | commits without named parents and completions with an unmoved target are such calls |
| Examples.HidingMerge | api/app/services/hos_version_control.py:549-580 | the outcome, for any version number among the properties of the one object of a branch, of merging that branch into an empty one: refused, dropped, converted or kept |
| Examples.UnusableIsDropped | api/app/services/hos_version_control.py:549-580 | a run after which a clean merge succeeds and its result lacks the one object |
| Examples.IntegerTextConflictsBack | api/app/services/hos_version_control.py:549-580 | a run after which a clean merge stores the number 7 for the text "7", and merging back conflicts there |
| Examples.PointTextBlocksMerge | api/app/services/hnf.py:38-56 | a run after which a merge without conflicts fails on the version number "7.0" |
| Examples.LateCompletionDropsCommit | api/app/services/hos_version_control.py:672-733 | a run after which resolving the last conflict completes the merge and loses the commit its target was at |
| Examples.AnnouncedSceneIsLost | api/app/services/scene_graph.py:392-403 | a run after which a request for a scene snapshot succeeds and there is none, then or later |
| HosVersionControl.HosVersionControlService.CreateBranch | api/app/services/hos_version_control.py:141-184 | takes exactly the specified step, errors included |
| HosVersionControl.HosVersionControlService.CommitStateMap | api/app/services/hos_version_control.py:115-128 | the state of a commit: its rows when it has any, else its tree |
| HosVersionControl.HosVersionControlService.Commit | api/app/services/hos_version_control.py:212-341 | takes exactly the specified step and keeps the invariant |
| HosVersionControl.HosVersionControlService.DiffCommits | api/app/services/hos_version_control.py:395-461 | the difference of the states of two commits of the project with its label, that of their raw trees when both states are empty, or the error |
| HosVersionControl.RawDiffIff | api/app/services/hos_version_control.py:413-423 | a diff of raw trees has an entry exactly at the paths, the service's own keys aside, where they say different things, null saying nothing |
| HosVersionControl.HosVersionControlService.Merge | api/app/services/hos_version_control.py:463-618 | takes exactly the specified step, ancestor search and classification included |
| HosVersionControl.HosVersionControlService.TryFinalizeMerge | api/app/services/hos_version_control.py:647-746 | completes the merge exactly as specified, or leaves all as it was |
| HosVersionControl.HosVersionControlService.ResolveConflict | api/app/services/hos_version_control.py:773-810 | takes exactly the specified step; a failing completion undoes the resolution |
| HosVersionControl.HosVersionControlService.CreateSceneSnapshot | api/app/services/scene_graph.py:292-404 | takes exactly the specified step, the rollback by a refused event included |
| Sexpr.Tokenize | parser/pral/core/sexpr.py:12-49 | the nested index loops compute the tokens |
| Sexpr.ParseTokens | parser/pral/core/sexpr.py:52-65 | the recursive parser ends on every token list and computes the tree and next index |
| Sexpr.ParseSexpr | parser/pral/core/sexpr.py:6-9 | tokenizing and parsing give the tree of the text, on any text |
| Sexpr.ParseConsumes | parser/pral/core/sexpr.py:52-65 | the next index lies beyond the start and within the list, and the tokens consumed are those of the returned tree, short only of closing parentheses missing at the end |
| Sexpr.TokensOfLayout | parser/pral/core/sexpr.py:12-49 | the tokens of a text are those it was laid out from, for any whitespace and any escaping |
| Sexpr.ParseUndoesLayout | parser/pral/core/sexpr.py:6-65 | every layout of a printable tree parses to that tree |
| Sexpr.PrintRoundTrip | parser/pral/core/sexpr.py:6-76 | parsing undoes printing if and only if no string atom is a parenthesis or number-like, the lone atom ")" excepted |
| Sexpr.ParsedIsPrintable | parser/pral/core/sexpr.py:52-76 | the parser returns only printable trees, a lone ")" excepted |
| Sexpr.OnlyBlanksSeparate | parser/pral/core/sexpr.py:12-49 | blank, tab, newline and carriage return separate two words, and no other character but a parenthesis does |
| Sexpr.NumberIff | parser/pral/core/sexpr.py:68-76 | a token is read as a number exactly when it is whitespace, a sign, a mantissa, perhaps an exponent, whitespace; every other token stays text |
| Sexpr.SexprFind | parser/pral/core/sexpr.py:79-89 | every list with the head, at any depth, in document order |
| Sexpr.FindsExactly | parser/pral/core/sexpr.py:79-89 | these are exactly the lists within the node that begin with the head |
| Sexpr.SexprChild | parser/pral/core/sexpr.py:92-96 | the first child list with the head, and nothing exactly when there is none |
| RateLimit.SlidingWindow.Check | api/app/middleware/rate_limit.py:52-63 | prunes the key's hits and admits as specified; other keys are untouched |
| RateLimit.MemoryKeepsWindow | api/app/middleware/rate_limit.py:52-63 | pruning never forgets a hit that still counts |
| RateLimit.RefusedIffWindowFull | api/app/middleware/rate_limit.py:52-63 | with a clock that never goes back, refused exactly when limit requests of the key were admitted in the last 60 seconds; an admitted one is told how many are left |
| RateLimit.AdmittedAreSpaced | api/app/middleware/rate_limit.py:52-63 | any limit+1 consecutive admitted requests of a key span at least 60 seconds |
| RateLimit.BucketLimiter.Check | api/app/middleware/rate_limit.py:65-72 | increments the counter of the key's minute, sets the expiry of a new one, admits up to the limit |
| RateLimit.BucketCountsItsMinute | api/app/middleware/rate_limit.py:65-72 | the expiry never resets a bucket in use: its count is the number of requests in its minute, and it is gone three minutes after that minute began |
| RateLimit.PassedIsCapped | api/app/middleware/rate_limit.py:65-72 | of the requests in a minute exactly the first limit are admitted |
| RateLimit.AtMostTwiceTheLimit | api/app/middleware/rate_limit.py:65-72 | at most twice the limit in any 60 seconds |
| RateLimit.TwiceTheLimitIsReached | api/app/middleware/rate_limit.py:65-72 | a burst that reaches that bound within one second |
| EventLog.Session.Publish | api/app/services/events.py:31-82 | appends, or on a refused constraint rolls back the whole transaction and looks the committed row up by id, then by key |
| EventLog.PageSplits | api/app/routers/events.py:77-93 | a page is the first limit matching events, and its cursor leaves exactly the rest |
| EventLog.HasMoreIff | api/app/routers/events.py:90-97 | more is announced exactly when something is left, and then the page is full |
| EventLog.DeliversEachOnceInOrder | api/app/routers/events.py:77-97 | polling from cursor 0 among any publishes delivers every event of the project exactly once in increasing order |
| EventLog.RepublishAddsNothing | api/app/services/events.py:43-82 | publishing an event again at any later time adds nothing |
| ObjectOutcomes.PublishAppendsIff | api/app/services/events.py:43-82 | publishing appends the event exactly when its id and its organisation, project, kind and key are new |
| ObjectOutcomes.DerivedIdsRefuseNothingMore | api/app/services/events.py:15-28 | where ids are derived, only an event of the same organisation, project, kind and key refuses another |
| Lifecycle.ReleasedWasApproved | api/app/services/lifecycle.py:3-13 | every walk from draft to approved, released or obsolete has an approval |
| Lifecycle.DistinctWalkIsShort | api/app/services/lifecycle.py:3-13 | a walk that repeats no edge has at most five steps |
| Lifecycle.TableIsMayStep | api/app/services/lifecycle.py:3-13 | exactly which role may take which step, spelled out |
| ObjectStore.StepKeeps | api/app/services/objects.py:47-245 | uploads (failing ones included), promotions, deletions and foreign events keep the invariant and everything of a version but its state |
| ObjectTheorems.EveryRunStoresVersions | api/app/services/objects.py:114-171 | in every run versions are numbered 1 to n, keys hold the bytes they were uploaded with, and keys are shared exactly within an organisation by equal hashes |
| ObjectTheorems.UploadTakesEffectIff | api/app/services/objects.py:72-245 | after any run, whatever clients publish, an upload succeeds exactly when project, object and parent version check out, and then its object, version, audit row and event are there |
| ObjectOutcomes.UploadLeaves | api/app/services/objects.py:72-245 | the whole store after an upload, each error included: object, version, number, key, audit row, event and blob |
| ObjectTheorems.UploadIsForGood | api/app/services/objects.py:121-171 | an uploaded version keeps number, hash and bytes through every later run |
| ObjectTheorems.EveryTrailIsAWalk | api/app/services/objects.py:325-338 | the audited steps of a version form a connected walk through the table from draft to its state; a released or obsolete one has an approval; a live one has at most five steps |
| ObjectTheorems.StepIsAllOrNothing | api/app/services/objects.py:309-358 | state and audit row commit together or not at all, and with the event exactly when the object is live |
| ObjectOutcomes.StepIsTakenIff | api/app/services/objects.py:309-358 | a step is taken exactly when the version is the organisation's, the role may take it and, on a live object, its event is new; the whole store afterwards, each error included |
| ObjectOutcomes.StateChangesByRole | api/app/services/objects.py:317-324 | over any call, a version changes state only by a step of its organisation that the caller's role may take |
| ObjectOutcomes.ObjectIsDeletedIff | api/app/services/objects.py:360-382 | an object is deleted exactly by an admin of its organisation, once, and its versions stay |
| ObjectOutcomes.ObjectsStay | api/app/services/objects.py:360-382 | no other call deletes an object, and none brings one back or moves it |
| ObjectTheorems.DeletedStepIsUnlogged | api/app/services/objects.py:339-357 | the run upload, delete, submit takes the step without an event |
| ObjectTheorems.OwnStepTakesEffectIff | api/app/services/objects.py:317-357 | after any run in which no client publishes the event of a lifecycle step, a step on a live object takes effect exactly when the role may take it and the version has not taken it before |
| ObjectOutcomes.PublishedStepIsNeverTaken | api/app/services/events.py:59-72 | a step whose event a client publishes before it is taken is never taken on a live object, in any later run |
| ObjectTheorems.NoSecondTime | api/app/services/events.py:59-72 | no step is taken twice on a live object |
| ObjectTheorems.RejectedStaysInDraft | api/app/services/events.py:59-72 | a rejected version of a live object stays in draft through every run |
| ObjectTheorems.RejectionIsReached | api/app/services/objects.py:309-358 | the run upload, submit, reject brings a version there, and no later submission of it ever takes effect |
| ObjectTheorems.ObsoleteStays | api/app/services/lifecycle.py:3-13 | obsolete is final in every run |
| ObjectService.Service.Upload | api/app/services/objects.py:47-245 | takes exactly the specified step; a failing upload leaves its blob |
| ObjectService.Service.Promote | api/app/services/objects.py:309-358 | takes exactly the specified step, the rollback by a refused event included |
| ObjectService.Service.SoftDelete | api/app/services/objects.py:360-382 | takes exactly the specified step |

## Left out

- Hnf.Validate: knows ASCII digits and whitespace only and leaves out the validator's size limits (texts over 4300 characters, whole floats beyond 64 bits); a text "7." counts as one with zeros after the point. UUIDs in other spellings count as the same id.
- Hnf.DecodeEntry: does not compute what str() makes of a type that is no string, nor what list() makes of references that are no list; the entry carries the outcome.
- The root reference a merge result or a commit from a bare tree names: the source takes the first row of an unordered query or the first JSON key, the model the least path. It does not enter any state.
- Other organisations than one in the version-control tables, authors, messages, timestamps and the audit rows of version control. Objects and versions are only ever added.
- The events of commits and merges: their keys contain ids made in the same call, so publishing them is not refused. Of the event log the version-control tables keep which scene-snapshot events are in it.
- Creating a scene snapshot inside a commit call: it is the two calls in sequence. The contents of scene snapshots and of validation warnings.
- Sexpr.ParseAtom: keeps the text of a number instead of its value, and knows ASCII digits and whitespace only (a number is a token that Python's int() or float() accepts).
- RateLimit.BucketLimiter.Check: takes one clock for server and store; the headers and keys of the middleware are left out.
- EventLog.DeliversEachOnceInOrder: takes each publish as committed at once; gaps from transactions that commit out of order are not modelled.
- ObjectStore.Upload: leaves out inferred types, document detection, the parse queue and the graph link, which do not touch the modelled tables; concurrent uploads to one object are not modelled.
- Collaboration locks, bills of material, search, the graph database, the remaining routers and the parsers built on the S-expression reader.
