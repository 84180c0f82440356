# Schema registry: a verified model

A registry stores protobuf modules under immutable tags, resolves their
dependencies, decides who may touch them, and has a background daemon that
compares each new tag with the one before it and turns the differences into
upgrade advice. This project models that behaviour in Dafny and proves what the
parts promise each other, up to the end-to-end statement that advice given step
by step never hides a breaking change.

`dafny verify dfyconfig.toml` checks everything.

## How it is laid out

| module | what it holds |
|---|---|
| `Base`, `Proto`, `Chains` | options and results, the parsed proto tree, a bound along chains |
| `Decimal`, `Extract`, `Walks` | number texts and keys, the extraction loops, what the two tree walks find |
| `Severity`, `Rules`, `Additive` | the severity judgement and its algebra, the rules read off the declarations, edits that only insert |
| `Acl`, `Paging` | access decisions, cursor pagination |
| `Store`, `History` | the tables as a value, every statement as a step on it, reachable states, tag immutability |
| `Search`, `Dependencies` | breadth-first search over any graph, dependency lookup and resolution |
| `Registry`, `Effects` | the repository as a class that changes the tables statement by statement, and what its operations leave alone |
| `Events`, `HashColumns` | the event tables and the hash column, in the encodings of both databases |
| `Drift`, `Daemon` | the file-by-file diff, the two-phase daemon |
| `Advice`, `Statuses` | ranks along a chain of tags, the status query |
| `Frames`, `Deletes`, `Stops` | what the records of a module depend on, what deletes and stopped runs do to them |
| `Lifetime`, `Counterexample` | whole histories, and registries in which a record goes wrong |

What comes from outside are parameters (`Store.Env`): the parser's two stages, a
syntax check and an interpretation, and the hash, all arbitrary functions of a
text. The server asks for correct syntax only, the daemon for both. Where a result needs the hash to be collision-free
or parsed files to have bodies, the lemma says so. Identifiers come from a
counter, times are numbers passed in, the collation used for paging is any
strict total order, and rows come back in any order the query leaves open.

## What the proofs found

* The triangle inequality of severities holds through a middle version exactly
  when that version is parsed and has a body; otherwise the detour can look
  better than the direct comparison (`Severity.TriangleIffParsed`).
* The name walk and the field walk agree on path names for every content exactly
  when the top-level message has a non-empty name (`Walks.WalksAgreeIffNamed`).
* Deleting a tag keeps all records of its module exact if and only if no
  processed tag follows it, or it had the same files as the tag before it, or it
  was the first tag and the next one had no recorded change
  (`Deletes.DeleteKeepsSoundIff`); so deleting the newest tag harms nothing,
  while deleting the oldest can. A delete that stops with the tag still there
  has its own exact condition (`Deletes.StoppedDeleteKeepsSoundIff`).
* Advice is more forgiving than exactness. After deleting a tag with recorded
  rank r, with rank s still to be seen on the way, something worse than s can be
  hidden if and only if s is below r (`Counterexample.CanHideIff`): the bound
  holds for every chain and position (`Deletes.AdviceAfterDelete`), and for each
  such pair there is a registry that attains it.
* A daemon run that stops at a file it cannot interpret leaves the tags it had
  already processed without a comparison, and nothing that happens later makes
  up for it (`Stops.StoppedRunIsNeverMadeUp`). The records of a module survive
  the stop if and only if the tags it processed there changed nothing
  (`Stops.StoppedRunKeepsSoundIff`). A registry filled through the server alone
  shows a breaking change hidden that way
  (`Counterexample.StoppedRunHidesBreakingChange`).
* The daemon can stop on what the server lets in unless every text with correct
  syntax has an interpretation (`Stops.NeverStopsIff`).
* The hash queries of the two databases agree if and only if no hashed content
  has the empty text as its hash (`HashColumns.QueriesAgreeIff`).
* `DeleteModule` leaves dangling dependency targets exactly when it gets as far
  as its third statement and another module depends on the deleted one
  (`History.DeleteModuleKeepsTargetsIff`); `DeleteModuleTag` never does.
* Asked without a tag, transitive resolution remembers the empty tag as visited,
  so a cycle back to the newest tag lists that tag; the contract of
  `Dependencies.GetTransitiveDependencies` says so.
* An error while adding dependencies leaves the tag published with the edges
  added so far (`Registry.Repository.PushAndLink`).

## Model

| member | source | states |
|---|---|---|
| `Decimal.ParseOfFormat` | internal/background/driftdetection.go:491-497 | parsing the decimal form of any integer returns it exactly when it fits 32 bits and is refused otherwise |
| `Decimal.ParsesIffDenotes` | internal/background/driftdetection.go:491-497 | a text is read as n if and only if it is decimal digits, possibly after one sign, whose place values add up to n, and n has 32 bits |
| `Decimal.ReadingExamples` | internal/background/driftdetection.go:491-497 | a plus sign and leading zeros are read; hexadecimal, underscores, a lone sign and the empty text are refused |
| `Decimal.FormatIntInjective` | internal/background/driftdetection.go:499-505 | two numbers with the same decimal form are equal |
| `Decimal.NumberKeyInjective` | internal/background/driftdetection.go:499-505 | two keys are equal if and only if both name and number are, even for names that contain '#' |
| `Extract.AddPrefixed` | internal/background/driftdetection.go:286-290 | the nested names are all added under the parent's name, in whatever order the map yields them |
| `Extract.ExtractMessages` | internal/background/driftdetection.go:281-293 | the recursive loop collects the message paths of the tree, which `Walks.MessageNamesAreDottedPaths` characterises |
| `Extract.WriteLatest` | internal/background/driftdetection.go:353-401 | of several writes to one key the latest is the one that is kept |
| `Extract.WriteKeys` | internal/background/driftdetection.go:353-401 | the keys after a run of writes are the old keys and the written ones |
| `Extract.WriteSource` | internal/background/driftdetection.go:353-401 | every binding was there before or was written |
| `Extract.ExtractRegularFields` | internal/background/driftdetection.go:364-373 | the shared table receives exactly the writes of the regular fields with parseable numbers |
| `Extract.ExtractMapFields` | internal/background/driftdetection.go:375-384 | the shared table receives exactly the writes of the map fields, with their composed type text |
| `Extract.ExtractOneofFields` | internal/background/driftdetection.go:386-397 | the shared table receives exactly the writes of the fields of all oneofs |
| `Extract.ExtractFieldsWithPrefix` | internal/background/driftdetection.go:353-401 | the recursion that pushes prefixes down and shares one table performs the writes of the whole tree in order |
| `Extract.ExtractFieldsByNumber` | internal/background/driftdetection.go:347-351 | the result is the field table of the tree, which `Walks.WalksAgree` characterises |
| `Extract.ExtractServices` | internal/background/driftdetection.go:295-301 | the names of the services |
| `Extract.ExtractEnums` | internal/background/driftdetection.go:303-309 | the names of the top-level enums |
| `Extract.ExtractRpcs` | internal/background/driftdetection.go:424-452 | the loop builds the RPC table, which `Walks.RpcTable` characterises |
| `Extract.ExtractEnumValues` | internal/background/driftdetection.go:472-489 | the loop builds the enum-value table, which `Walks.EnumValueTable` characterises |
| `Extract.CountRequiredFields` | internal/background/driftdetection.go:514-529 | the count over all nesting levels |
| `Walks.MessageNamesAreDottedPaths` | internal/background/driftdetection.go:281-293 | the names that are re-prefixed on return are exactly the dotted paths of the tree |
| `Walks.WalksAgree` | internal/background/driftdetection.go:347-401 | the keys of the prefix-pushing walk are exactly path#number for the parseable regular, map and oneof fields declared at a path; each is bound to a field declared there, under a path that the name walk finds |
| `Walks.WalksAgreeIffNamed` | internal/background/driftdetection.go:353-358 | for a top-level message, field keys lie under found paths whatever it contains if and only if its name is not empty |
| `Walks.UnnamedTopDisagrees` | internal/background/driftdetection.go:353-358 | a concrete unnamed top-level message whose nested field is filed under a path the name walk does not find |
| `Walks.RpcTable` | internal/background/driftdetection.go:424-452 | the keys are exactly service.rpc of the declared RPCs, bound to the types and streaming flags of the endpoints of an RPC of that name, where a missing endpoint has neither |
| `Walks.EnumValueTable` | internal/background/driftdetection.go:472-489 | the keys are exactly enum#number for values with parseable numbers, bound to the name of such a value |
| `Severity.HasBreakingChanges` | internal/background/driftdetection.go:166-249 | breaking if and only if both bodies exist and the later contract fails to honour the earlier one |
| `Severity.HasPotentiallyBreakingChanges` | internal/background/driftdetection.go:252-277 | risky if and only if both bodies exist and required fields were added or a field kept its number under another name |
| `Severity.DetermineSeverity` | internal/background/driftdetection.go:146-163 | the two checks combine into the severity whose algebra the next rows prove |
| `Severity.JudgeTriangle` | internal/background/driftdetection.go:146-277 | the severity of a to c is at most the worse of a to b and b to c, for all contracts |
| `Severity.Triangle` | internal/background/driftdetection.go:146-277 | the same for optional parsed files through any parsed middle version |
| `Severity.TriangleIffParsed` | internal/background/driftdetection.go:146-172 | the inequality holds through a middle version, for all ends, if and only if that version is parsed and has a body |
| `Severity.HistoryBound` | internal/background/driftdetection.go:146-277 | over a history of any length the direct severity is at most the worst step |
| `Severity.CleanBothWays` | internal/background/driftdetection.go:166-277 | info in both directions if and only if package, messages, services, enums, fields, RPCs, enum numbers and required counts are all equal |
| `Severity.SelfComparison` | internal/background/driftdetection.go:146-163 | a parsed file compared with itself is info, a missing one is a warning |
| `Rules.TitleIsDotted` | internal/background/driftdetection.go:353-358 | under a named top-level message, the title that field numbers are filed under is the dotted path |
| `Rules.FieldTable` | internal/background/driftdetection.go:353-401 | the field table binds a title and number to exactly the name and type of the last declaration of that number in reading order, map types spelled with key and value |
| `Rules.CallTable` | internal/background/driftdetection.go:424-452 | the RPC table binds a name to exactly the last RPC of that name in reading order |
| `Rules.RequiredIsCounted` | internal/background/driftdetection.go:514-529 | the nested count is the number of required declarations in the whole tree |
| `Rules.SeverityByDeclarations` | internal/background/driftdetection.go:146-277 | critical if and only if the package differs, a path, service or enum is gone, a number of a message is gone or has another type, an RPC is gone or has another signature, or an enum number is gone; a warning if and only if none of that holds and more fields are required or a number has another name; info otherwise |
| `Rules.SeverityWithoutBodies` | internal/background/driftdetection.go:147-149 | a missing file is a warning, and two files of which one has no body are info |
| `Additive.RequiredGrows` | internal/background/driftdetection.go:514-529 | inserting into a tree at any depth raises the required count by exactly the inserted required fields |
| `Additive.FieldsKept` | internal/background/driftdetection.go:353-401 | insertions with fresh numbers leave every earlier field binding as it was |
| `Additive.RpcsKept` | internal/background/driftdetection.go:424-452 | insertions of fresh RPCs leave every earlier RPC binding as it was |
| `Additive.ContractGrows` | internal/background/driftdetection.go:166-277 | an insertion with fresh names and numbers honours the earlier contract and renames nothing |
| `Additive.AdditiveEditsNeverBreak` | internal/background/driftdetection.go:146-277 | inserting messages, fields, oneofs, services, RPCs, enums and values anywhere is a warning if a required field is inserted and info otherwise |
| `Acl.AclRepository.GrantPermission` | internal/data/acl.go:37-49 | an upsert that then allows every level up to the granted one; refused without change exactly for a permission outside the three levels or an unknown user |
| `Acl.AclRepository.RevokePermission` | internal/data/acl.go:51-63 | removes the entry, or fails without change when there is none |
| `Acl.AclRepository.DeleteUserPermissions` | internal/data/acl.go:119-129 | afterwards the user is denied everything, and every decision about other users is as before |
| `Acl.AclRepository.CheckPermission` | internal/data/acl.go:89-117 | the two-stage read decides by the exact entry and by the wildcard only when there is none: admin suffices for all three, write for write and read, read for read, and no entry for nothing |
| `Acl.TableIsHistory` | internal/data/acl.go:37-63 | an entry is in the table after any operations, users added and removed included, if and only if a grant of it to a user known at the time survives in the history |
| `Acl.UsersAreHistory` | migrations/20251226134100_acl.sql:5 | the users that grants can refer to are those added and not removed since |
| `Acl.EntriesHaveUsers` | migrations/20251226134100_acl.sql:5 | every entry refers to an existing user, since removing a user takes the entries along |
| `Acl.DecisionIsHistory` | internal/data/acl.go:89-139 | a decision is positive if and only if the latest surviving grant on the module, or on the wildcard when none survives, is at or above the level |
| `Acl.DecisionByName` | internal/data/acl.go:132-139 | after any history, a deciding admin grant allows all three permissions, a write grant exactly read and write, a read grant only read, and no grant none |
| `Acl.WildcardReachesOnlyUnlisted` | internal/data/acl.go:89-117 | a wildcard operation never changes a decision where an exact entry survives, nor one of another user |
| `Acl.DecisionsAreDownwardClosed` | internal/data/acl.go:132-139 | a decision that allows a level allows every lower one |
| `Paging.Select` | internal/data/registry.go:126-140 | the rows are the first of the eligible names, ascending, up to the limit |
| `Paging.ListModules` | internal/data/registry.go:123-162 | the error cases, and a page of at most the page size with a cursor that closes it exactly |
| `Paging.ScanUnderInterleaving` | internal/data/registry.go:123-162 | however the table changes between pages, a finished scan is strictly ascending and lists every module that was there throughout exactly once |
| `Paging.ListedIsAscending` | internal/data/registry.go:123-162 | what any prefix of a scan has listed is strictly ascending and lies before its token |
| `Paging.StayingIsListed` | internal/data/registry.go:123-162 | a module that stays put is never skipped |
| `Paging.TokensIncrease` | internal/data/registry.go:145-161 | with a page size of at least one, every token lies beyond the one before |
| `Paging.ListAll` | internal/data/registry.go:123-162 | with no writes in between, following tokens ends and gives the whole table in order |
| `Store.ReachableIsConsistent` | internal/data/registry.go:164-296 | every state reached by any operations, deletes stopped after any statement included, keeps unique rows, no orphans, true hashes, true parses of processed tags and one row per event key |
| `Store.ApplyIsConsistent` | internal/data/registry.go:47-660 | each single operation keeps that consistency |
| `Store.PushIsConsistent` | internal/data/registry.go:230-296 | a push keeps it, whether or not it goes through |
| `Store.DeleteModuleIsConsistent` | internal/data/registry.go:164-228 | after any number of its five statements nothing is orphaned, and the rows that the statements so far should remove are gone |
| `Store.DeleteTagIsConsistent` | internal/data/registry.go:375-424 | after any number of its three statements nothing is orphaned |
| `Store.HashIsConsistent` | internal/data/drift.go:91-157 | hashing a tag hashes all its files, truthfully |
| `Store.ParseIsConsistent` | internal/data/metadata.go:85-138 | parsing a tag stores the true parse of all its files or does nothing |
| `Store.HashTouchesOnly` | internal/data/drift.go:104-149 | hashing a tag changes nothing but the missing hashes of its own files |
| `Store.ParseTouchesOnly` | internal/data/metadata.go:85-138 | parsing a tag stores the parses of its own files and marks it, and touches no other tag |
| `Store.SaveIsConsistent` | internal/data/drift.go:265-314 | saving events keeps them anchored to existing, processed tags and distinct |
| `History.TagIsImmutable` | internal/data/registry.go:230-339 | once published and until it or its module is deleted, a tag is pulled with the same files after any sequence of operations, draft pushes to its name included |
| `History.PushThenPull` | internal/data/registry.go:241-296 | a push that can go through is pulled back as exactly the pushed files; any other push changes nothing |
| `History.PushDraftThenPull` | internal/data/registry.go:520-565 | a pushed draft is what a pull of its tag returns unless a stable tag shadows it, and every other pull is as before |
| `History.DropDraftsThenPull` | internal/data/registry.go:648-660 | dropping old drafts makes exactly the drafts before the cutoff unavailable; stable tags and younger drafts are pulled as before |
| `History.RegisterThenPull` | internal/data/registry.go:47-57 | a new module has nothing to pull, registering again changes nothing, and every other pull is as before |
| `History.ReachableTagsAreNamed` | internal/server/registry.go:131-134 | the server refuses an empty tag, so no reachable state has one |
| `History.DeleteTagKeepsTargets` | internal/data/registry.go:398-400 | deleting a tag, or stopping on the way, leaves no dangling dependency target |
| `History.DeleteModuleKeepsTargetsIff` | internal/data/registry.go:164-228 | deleting a module, or stopping on the way, keeps all targets if and only if it stops before the tags go or no other module depends on it |
| `Effects.TagDeleteKeepsOthers` | internal/data/registry.go:375-424 | after any number of statements of a tag delete, the pull of every other name, stable or draft, the dependencies between other tags and the rows and events of other tags are as before |
| `Effects.TagDeleteUnlinks` | internal/data/registry.go:398-400 | from the second statement on nothing links to or from the deleted tag |
| `Effects.TagDeleteThenPull` | internal/data/registry.go:385-421 | the deleted tag pulls no files after the first statement, and in the end its draft or nothing |
| `Effects.ModuleDeleteKeepsOthers` | internal/data/registry.go:164-228 | after any number of statements of a module delete, pulls, stable or draft, dependencies and events of other modules are as before |
| `Effects.PushKeepsOthers` | internal/data/registry.go:230-296 | a push leaves every other pull, all dependencies and all events as they were |
| `Effects.AddEdgeLinks` | internal/data/registry.go:448-450 | a new edge makes its source depend on its target and changes no other dependency |
| `Effects.DraftExpires` | internal/data/registry.go:520-660 | a pushed draft is available until its own time is before the cutoff |
| `Dependencies.FindLatest` | internal/data/registry.go:460-471 | a newest tag of the module, and none only when it has no tag |
| `Dependencies.GetModuleDependencies` | internal/data/registry.go:458-518 | which tag is looked up, when the lookup fails, and that a successful one returns each linked node once |
| `Dependencies.EdgesOf` | internal/data/registry.go:482-517 | the lookup fails if and only if the tag has a dangling target, and otherwise lists the linked nodes once each |
| `Dependencies.SearchFrom` | internal/data/registry.go:614-643 | the queue loop ends with the exact resolution after one lookup per listed node |
| `Dependencies.GetTransitiveDependencies` | internal/data/registry.go:590-644 | on any graph: exactly the nodes reachable by one edge or more, once each, nearest first, direct exactly when one edge away, the root only on a self-edge, and one lookup more than results; with an empty tag the search starts at the newest tag |
| `Search.SearchIsExact` | internal/data/registry.go:614-643 | an empty queue means the list is the exact resolution |
| `Search.WalksAreListed` | internal/data/registry.go:614-643 | every walk from the start ends at a listed node no deeper than the walk is long |
| `Search.DepthsAreDistances` | internal/data/registry.go:614-643 | the depth at which a node was listed is its shortest distance, and is one exactly for direct dependencies |
| `Search.Expand` | internal/data/registry.go:629-640 | the inner loop lists and enqueues the unvisited successors and no others |
| `Search.Round` | internal/data/registry.go:614-643 | one turn of the outer loop shrinks the unvisited nodes or else the queue |
| `Registry.RecentTags` | internal/data/registry.go:73-75 | the newest tags, newest first, at most the limit, none newer left out |
| `Registry.InsertFiles` | internal/data/registry.go:277-285 | all files go in, or none does when a filename repeats |
| `Registry.PullModule` | internal/data/registry.go:298-339 | each error exactly in its case, otherwise the files of the tag, once each |
| `Registry.ServerPull` | internal/server/registry.go:166-205 | the stable tag shadows the draft of the same name; succeeds exactly when one of them exists |
| `Registry.Repository.PushModule` | internal/data/registry.go:230-296 | all or nothing: succeeds if and only if the module exists, the tag is new among all tags and filenames are distinct; otherwise nothing changes, and an existing tag is reported as such exactly when the query lists it: never with ten strictly newer tags, always with fewer under distinct times |
| `Registry.Repository.DeleteModule` | internal/data/registry.go:164-228 | the tables after all five statements, or after those before the failing one |
| `Registry.Repository.DeleteModuleTag` | internal/data/registry.go:375-424 | the tables after all three statements, or after those before the failing one; unknown tags change nothing |
| `Registry.Repository.AddModuleDependencies` | internal/data/registry.go:426-456 | the tag gains links to exactly the dependencies before the first that cannot be inserted, all of them exactly on success, and no other edge changes |
| `Registry.StopsAtEndIff` | internal/data/registry.go:438-453 | all inserts go through if and only if all targets exist, none repeats and none is linked yet |
| `Registry.Repository.PushAndLink` | internal/server/registry.go:145-163 | an impossible push changes nothing; a possible one publishes the tag even if its dependencies fail, and links exactly the first ones |
| `Registry.Repository.ServerPush` | internal/server/registry.go:125-164 | a request with an empty name, tag, filename or content, or with a file of wrong syntax, changes nothing; drafts and stable pushes go their own ways |
| `Registry.RefusedIff` | internal/server/registry.go:126-139 | a request is refused if and only if its name or tag is empty or some file has no name, no text or wrong syntax |
| `Events.BuildBatch` | internal/data/drift.go:271-299 | row i of the statement uses placeholders 8i+1 to 8i+8 and they denote exactly the columns of event i |
| `Events.SaveBatch` | internal/data/drift.go:265-314 | the built statement inserts each event unless its key is taken |
| `Events.SaveOneIff` | internal/data/drift.go:301-307 | an event is dropped if and only if a row shares its tag, file, type and both hashes; otherwise one unacknowledged row with all its columns is added |
| `Events.SaveKeeps` | internal/data/drift.go:301-307 | a save keeps every earlier row unchanged and keys distinct, and afterwards every event of the batch has a row |
| `Events.ResaveIsNoOp` | internal/data/drift.go:301-307 | saving events that all have rows changes nothing |
| `Events.RunKeepsKeysDistinct` | migrations/20260130155300_drift_detection.sql:37-38 | over any saves and acknowledgements there is at most one row per key |
| `Events.RunKeeps` | internal/data/drift.go:265-371 | no later operation removes a row, changes its severity or clears its acknowledgement |
| `Events.StoreIsIdempotent` | internal/data/drift.go:265-371 | distinct keys, nothing lost, and saving a batch twice is saving it once, after any operations |
| `Events.SaveRefines` | internal/data/sqlite/drift.go:233-274 | a save on the '' encoding does the same to the decoded events as one on the NULL encoding |
| `Events.EncodingsAgree` | internal/data/sqlite/drift.go:233-334 | after any operations the two encodings hold the same events |
| `Events.AcknowledgeMarksOne` | internal/data/drift.go:359-371 | after any operations, acknowledging marks exactly the row with that identifier, with that acknowledgement, and nothing else |
| `Drift.GetPreviousTagId` | internal/data/drift.go:172-201 | the latest of the module's strictly earlier tags, none only when there is none |
| `Drift.DetectAddedAndModified` | internal/background/driftdetection.go:60-110 | the loop with lazily loaded parses yields exactly the added and the modified changes, one event per file, modified ones with the severity of both parses |
| `Drift.DetectDeleted` | internal/background/driftdetection.go:112-125 | the loop yields exactly the deleted changes, one critical event per file |
| `Drift.DetectDrift` | internal/background/driftdetection.go:23-128 | the events are exactly the stored changes against the previous tag, at most one per file, each in the list of its type, with info for added, critical for deleted and the severity of the two stored parses for modified files, and the hashes of both sides |
| `Drift.DiffReplays` | internal/background/driftdetection.go:66-125 | replaying the events on the previous hashes gives the current ones, and there are none exactly when the two agree |
| `Drift.StoredChangesTurn` | internal/background/driftdetection.go:66-125 | what detection computes from the stored rows satisfies the premise of the replay |
| `Drift.DetectionCounts` | internal/model/drift.go:76-83 | drift exactly when the hashes differ, and as many changes as files that differ |
| `Drift.DiffIsSavedWhole` | internal/data/drift.go:301-307 | a diff never collides with itself on the unique index |
| `Daemon.ParseProtoFiles` | internal/background/protoparsing.go:56-61 | all files parse or the tag does not |
| `Daemon.ParseAndSave` | internal/data/metadata.go:85-138 | the upserts and the mark happen together or not at all |
| `Daemon.ParseAll` | internal/background/protoparsing.go:48-71 | the tags before the first that does not parse are processed, no others |
| `Daemon.ComputeAndStoreHashes` | internal/data/drift.go:91-157 | all remaining files of the tag get their hash |
| `Daemon.HashAll` | internal/background/protoparsing.go:87-104 | every tag with a missing hash is hashed before any comparison |
| `Daemon.StoredIsTrue` | internal/background/driftdetection.go:66-125 | on hashed and processed tags, what detection computes from stored rows is the true diff of the contents, with severities of the real parses |
| `Daemon.ExactIsTrue` | internal/background/driftdetection.go:66-125 | a record is exact if and only if it names every file that differs once and no other, as added with info, deleted with critical, or modified with the severity of the parses of both contents, with their hashes |
| `Daemon.SavedDiff` | internal/data/drift.go:265-314 | saving a diff makes the tag's rows exactly its changes and leaves other tags' rows alone |
| `Daemon.SaveDetection` | internal/background/protoparsing.go:122-142 | the events are saved when there is drift, and nothing changes otherwise |
| `Daemon.DetectAndSave` | internal/background/protoparsing.go:115-142 | one tag is compared with its predecessor and its diff saved |
| `Daemon.CompareAll` | internal/background/protoparsing.go:106-143 | every newly processed tag ends with exactly its diff, whatever the order |
| `Daemon.RunDaemon` | internal/background/protoparsing.go:33-146 | a run returns no error if and only if every unprocessed tag parses; then each of those ends with exactly the events of the diff against its predecessor, spelled out by type, severity and hashes, earlier tags keep theirs, and contents are untouched; otherwise no event is saved and a tag that does not parse stays unprocessed |
| `Advice.MaxRankCovers` | internal/data/drift.go:527-539 | the recorded rank is at least that of every event on the tag |
| `Advice.MaxRankBound` | internal/data/drift.go:527-539 | the recorded rank is at most three and is that of some event when positive |
| `Advice.FileTriangle` | internal/background/driftdetection.go:66-125 | the triangle inequality for one file, additions and deletions included |
| `Advice.StepIsRecorded` | internal/data/drift.go:505-548 | a step of the chain is never worse than what is recorded on the tag it leads to, if the records of the steps so far are exact |
| `Advice.AdviceIsSound` | internal/data/drift.go:505-593 | for every file, comparing the pinned tag directly with the k-th newer one is at most the worst rank recorded on the k steps, if those k records are exact, whatever other tags and modules look like |
| `Advice.SuggestedUpdatesAreSafe` | internal/data/drift.go:577-593 | if every step up to the k-th says suggest_update, the direct comparison has only info events |
| `Statuses.NewerTags` | internal/data/drift.go:506-512 | the strictly newer tags of the module, oldest first, none missing |
| `Statuses.NewerTagsAreChain` | internal/data/drift.go:506-512 | with distinct times, the query's rows after the pinned tag are the chain the advice is about |
| `Statuses.RecordedRank` | internal/data/drift.go:527-539 | the worst rank recorded for the module and tag |
| `Statuses.StatusesOf` | internal/data/drift.go:505-558 | the list is one status per newer tag with recorded events, oldest first, with its severity and recommendation |
| `Statuses.GetModuleDependencyDriftStatuses` | internal/data/drift.go:433-569 | which tag is reported on, the error case, and that the answer is the lists of all dependencies whose target exists, one after the other, each once |
| `Statuses.StatusTellsTruth` | internal/data/drift.go:546-593 | every status of the answer is about a dependency and a newer tag of it with events: critical if and only if some event is, a warning if and only if none is critical and some is a warning, info otherwise, and a review exactly when some event is a warning or critical |
| `Statuses.EveryEventIsTold` | internal/data/drift.go:505-558 | every newer tag of a dependency with an event has such a status in the answer |
| `Statuses.AdditionsAreInfo` | internal/background/driftdetection.go:68-78 | an upgrade that only adds files has only added events, all info |
| `Statuses.AdditionsAreSuggested` | internal/data/drift.go:588-593 | whatever the answer says about such an upgrade is info and suggested |
| `Statuses.ReportedUpdatesAreSafe` | internal/data/drift.go:433-593 | if the query's answer has no status of a dependency that asks for a review up to its k-th newer tag, moving it there directly has only info events |
| `Frames.ElsewhereLeaves` | internal/data/registry.go:47-660 | any step about other modules, and in this one any later push, draft, link, hash or acknowledgement, leaves its tags, files and recorded events alone |
| `Frames.CompletedKeepsSound` | internal/background/protoparsing.go:33-146 | a run that completes keeps every record of every module exact and adds exact ones |
| `Deletes.DeleteKeepsExactIff` | internal/data/registry.go:375-424 | after deleting a tag the next record is exact if and only if the deleted tag had no events, or, when it was the first tag, the next one had none |
| `Deletes.DeleteKeepsSoundIff` | internal/data/registry.go:375-424 | deleting any tag keeps all records of its module exact if and only if no processed tag follows, or it changed nothing, or it was first and the next changed nothing |
| `Deletes.StoppedDeleteKeepsSoundIff` | internal/data/registry.go:385-407 | a delete that stops after one or two statements keeps all records exact if and only if the tag had no files or no record involves it |
| `Deletes.DeleteNewestKeepsSound` | internal/data/registry.go:375-424 | deleting the newest tag keeps every record exact |
| `Deletes.ChainWithout` | internal/data/registry.go:375-424 | the chain of newer tags after deleting one of them is the chain without it |
| `Deletes.DeletedStepIsForgotten` | internal/data/registry.go:375-424 | for any chain and position, the worst record there was is the worse of the deleted record and what is still recorded |
| `Deletes.AdviceAfterDelete` | internal/data/drift.go:505-593 | after deleting any later tag, comparing the pinned tag with one beyond it is at most the worse of what is still recorded and the deleted record |
| `Stops.ProcessedRowsAreFrozen` | internal/background/protoparsing.go:33-146 | while a processed tag is there, no operation and no run, complete or not, changes its events beyond acknowledging them |
| `Stops.StoppedRunKeepsSoundIff` | internal/background/protoparsing.go:57-68 | a run that stops keeps all records of a module exact if and only if each of its tags that the run processed was the first or had the files of the tag before it |
| `Stops.StoppedRunIsNeverMadeUp` | internal/background/protoparsing.go:57-78 | a tag processed by a run that stopped has no events whatever happens later; while its predecessor stays in place its record is exact if and only if, already before the run, it was the first or had the files of the tag before it |
| `Stops.ServerRunIsChecked` | internal/utils/checkers.go:11-30 | every file stored through the server is non-empty and has correct syntax |
| `Stops.NeverStopsIff` | internal/utils/parsers.go:15-56 | no run can stop on what the server lets in if and only if every non-empty text with correct syntax has an interpretation |
| `Lifetime.HistoryIsSound` | internal/background/protoparsing.go:33-146 | for each module, in every history of operations and runs, with anything at all in other modules and in this one harmless deletes and harmless stops, every record of the module stays exact |
| `Lifetime.AdviceInEveryHistory` | internal/data/drift.go:505-593 | after any such history no file's direct comparison in that module is worse than the worst advice on the way |
| `Lifetime.ReportInEveryHistory` | internal/data/drift.go:433-593 | after any such history, a query answer without a review of a dependency up to its k-th newer tag means that moving there directly has only info events |
| `Counterexample.CanHideIff` | internal/data/registry.go:375-424 | some registry with exact records hides something when a tag of rank r is deleted and rank s remains, if and only if s is below r and r is at most three |
| `Counterexample.DeleteHidesBreakingChange` | internal/data/registry.go:375-424 | in particular a critical change can end up advised as info |
| `Counterexample.StoppedRunHidesBreakingChange` | internal/background/protoparsing.go:57-68 | a concrete registry, filled by requests the server accepts, where a run stops and leaves a critical change without a record |
| `HashColumns.HashingAgrees` | internal/data/sqlite/drift.go:65-126 | hashing a tag does the same in both encodings, whatever the hash function |
| `HashColumns.QueriesAgreeIff` | internal/data/sqlite/drift.go:32-200 | the hash queries of both databases agree on every tag if and only if no hashed content has the empty text as its hash |

## Left out

- SQL text, connection pools, driver calls and logging: statements are steps on tables that take effect or fail without one.
- Faults of single daemon statements: a failing query makes the daemon skip a tag or a phase; the model's runs have no failing statements and no writes by others in between.
- SQLite timestamp ordering: times are numbers with the Postgres order.
- SHA-256, base64, bcrypt and random tokens: the hash is a parameter, a page token is either malformed or the name it encodes.
- The proto parser and the JSON form of its output: `Store.Env` takes any syntax check and any interpretation, and parses are stored as values.
- Quoting inside the page-token comparison and the limit on statement parameters: names are values and batches have any size.
- `internal/utils/meta.go`, `internal/utils/metadata.go` and tag metadata: structural copying that would only add easy members.
- `internal/middleware`, gRPC and HTTP servers, configuration, commands, mocks and generated code.
- `internal/data/sqlite/registry.go`: the same search and pagination as the Postgres file.
- User and bot management and its offset paging, beyond which users exist when a permission is granted.
- Extractors used only by tests (`extractFieldsFromMessages`, `extractFieldTypesFromMessages`, `extractRPCsFromParsed`, `extractEnumValuesFromParsed`).
- Draft dependencies: a draft row keeps its files and time; its dependency list is opaque text that no modelled operation reads.
- Dependencies.GetTransitiveDependencies: asks for stored tags with non-empty names, which the server guarantees (`History.ReachableTagsAreNamed`).
- Lifetime.HistoryIsSound: pushes to the module in question carry strictly increasing times; with equal times the predecessor query has no single answer.
- Maps from names to `true` are modelled as sets, and counters are unbounded.
