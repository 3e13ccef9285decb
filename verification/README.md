# Verified model of the GitOps control tool

A Dafny model of the parts of the tool where a mistake loses data or shows a secret, with proofs over
every input, every peer and every run.

* **Batch planner** (`GatewaySchema`, `UnionFind`, `BatchPlanner`, `BatchGroups`, `BatchSplit`). The array union-find
  with path halving refines relabelling, relabelling computes reachability, and the groups are the
  connected components of the relation between proxies and plugin configs. Packing is proved against
  the real length, in bytes, of merged bodies.
* **Ownership ledger and its journal** (`StateKeys`, `Ledger`, `ApplyProtocol`, `ApplyCommand`,
  `ApplySegment`). The state file is a class whose methods are proved against functions of the ledger.
  The incremental shared-mode apply is a step relation over disk, memory and a live gateway, with a
  crash possible between any two steps and edits by others at any time. The command itself is proved to
  perform these steps, whether it completes, gives up or cannot save, so the safety of every behaviour
  is the safety of the command.
* **Retry loop, token cache, pagination** (`HttpRetry`, `TokenCache`, `Pagination`). Three loops
  against an arbitrary peer, clock or server.
* **Display sink** (`Buckets`, `NeedleIndex`, `Admission`, `Registration`, `DisplayRegistry`, `TextCodec`,
  `Utf8Redaction`, `LineScrubber`, `EscapeCodec`, `CredentialShapes`, `DisplaySink`). A bucketed index that
  agrees with naive leftmost-longest replacement, a budgeted all-or-nothing registration over every
  run, a streaming tokenizer, a pass that withholds lines, and an escape codec with surrogate pairs;
  together, over every registration history, exactly which values are held, which runs of eight bytes are
  private, what of a text is replaced and which of its lines are withheld.
* **Export live view** (`JsonPointer`, `LiveView`, `ExportView`). Fingerprints are replaced at exactly
  the declared secret places, decided on pointer texts.
* **Plugin scope merge and authentication coverage** (`PluginScope`, `PluginAuth`).
* **Log sanitizer** (`LogSanitizer`).

`Ordering`, `FirstSeen`, `Splitting`, `MachineIntegers` and `Wrappers` hold what several of them share.
`dafny verify dfyconfig.toml` checks the whole project.

## Findings

* **A cut block can carry a workflow command.** The module documentation promises that no line of a
  sanitized text contains `##[` (`src/diagnostics.rs:18-29`). `sanitize_block` appends its truncation
  marker, which starts with `[`, after it has neutralized the lines (`src/diagnostics.rs:167-169`), so
  a block cut right after two hashes breaks the promise. `LogSanitizer.BlockIsCleanExactly` states
  exactly when the promise holds, and `LogSanitizer.CutBlockCanCarryCommand` gives an input.
* **A listing of exactly 100000 rows without a total is refused.** The row bound is checked before the
  empty page that would complete it can be asked for (`src/http_client.rs:2417-2419`). The refusal is
  intended: the function's documentation calls it a safety stop (`src/http_client.rs:2388-2393`).
  `Pagination.UncountedListingIsWhole` is the exact condition, `Pagination.ListingAtTheBoundExists` gives
  a server and a listing that is refused, and with a total the same list comes back whole
  (`Pagination.HonestListingIsWhole`).

## Model

| member | source | states |
|---|---|---|
| `UnionFind.Root` | src/http_client.rs:3239-3245 | finding a root with path halving ends, returns the class label and changes no class |
| `UnionFind.Join` | src/http_client.rs:3288-3292 | joining relabels exactly the second class with the first one's label |
| `UnionFind.LabelsAreComponents` | src/http_client.rs:3288-3314 | two nodes share a label exactly when a chain of joined pairs links them |
| `BatchPlanner.BatchDependencyGroups` | src/http_client.rs:3238-3332 | the imperative planner, with its parent array and its map of entries, returns the groups of the specification |
| `BatchPlanner.ConnectedComponents` | src/http_client.rs:3274-3332 | filing plugin configs and proxies under their roots gives one entry per label, in root order |
| `BatchPlanner.JoinRelated` | src/http_client.rs:3274-3314 | after both joining loops the array is a forest for the component labels of the whole batch |
| `BatchGroups.EdgeIsRelated` | src/http_client.rs:3293-3314 | the joined pairs are exactly the associations and the proxy-scoped references inside one namespace |
| `BatchGroups.LabelsAreLinks` | src/http_client.rs:3288-3314 | with unique keys, equal labels mean exactly that the resources are linked by a chain of relations |
| `BatchGroups.GroupsAreComponents` | src/http_client.rs:3233-3332 | two resources are in one group exactly when a chain of relations links them |
| `BatchGroups.OrderDoesNotMatter` | src/http_client.rs:3247-3260 | listing the batch in any other order gives the same groups in the same order |
| `BatchGroups.GroupsConserve` | src/http_client.rs:3238-3332 | each resource is in the groups exactly as often as in the batch |
| `BatchGroups.GroupsAreNonEmpty` | src/http_client.rs:3238-3332 | no group is empty |
| `BatchGroups.StandaloneFirst` | src/http_client.rs:3261-3273 | every upstream and consumer group stands before every group with a proxy or plugin config |
| `BatchGroups.GroupsAscend` | src/http_client.rs:3247-3332 | upstreams and then consumers stand alone in ascending order of namespace and id; components follow in the order of one member of each, and each lists its members in ascending order |
| `BatchSplit.SerializedLength` | src/http_client.rs:3140-3150 | the bytes of a body: braces, one comma less than members, and the members, with empty arrays skipped |
| `BatchSplit.SerializesExactly` | src/http_client.rs:3140-3150 | the bytes of a body are JSON: in braces, with commas between, the arrays that hold something, each under its name and in this order, and each row as it is |
| `BatchSplit.MergedBodyIsShorter` | src/http_client.rs:3211-3215 | one merged body is never longer than the two bodies it replaces |
| `BatchSplit.MergedRunIsShorter` | src/http_client.rs:3211-3215 | a chunk's body is never longer than the sum of its groups' bodies |
| `BatchSplit.PackingIsGreedy` | src/http_client.rs:3212-3225 | runs hold the groups in order, fit the budget unless they are one group, and were closed only when the next group did not fit |
| `BatchSplit.Pack` | src/http_client.rs:3208-3230 | the packing loop merges exactly the greedy runs |
| `BatchSplit.MergedInOrder` | src/http_client.rs:3211-3215 | merging a run of groups puts their rows one after another, kind by kind, in order |
| `BatchSplit.SplitBatch` | src/http_client.rs:3206-3231 | splitting succeeds exactly when every group serializes, and is then grouping, and packing by serialized bytes |
| `BatchSplit.ChunksAreWholeGroups` | src/http_client.rs:3190-3231 | every chunk is a run of whole groups in order; for a cap above 512 bytes, a chunk of two or more groups has a real body that leaves 512 bytes of the cap free, and a run was closed only when the next group would have passed that bound |
| `BatchSplit.ChunksConserve` | src/http_client.rs:3203-3231 | each resource is in the chunks exactly as often as in the batch |
| `BatchSplit.ChunksAreNonEmpty` | src/http_client.rs:3212-3230 | no chunk is empty |
| `StateKeys.DecodeStateKeyComponent` | src/diff/resource_diff.rs:508-540 | the decoding loop computes the decoding function, malformed escapes included |
| `StateKeys.DecodeUndoesEncode` | src/diff/resource_diff.rs:504-540 | decoding a key component gives back what was encoded, for every string |
| `StateKeys.KeyNamespace` | src/diff/resource_diff.rs:468-502 | a key gives back its row's namespace, and gives none exactly for an empty namespace or id |
| `StateKeys.KeysAreInjective` | src/diff/resource_diff.rs:468-475 | two rows with one key are one row |
| `StateKeys.KeyIsSpelled` | src/diff/resource_diff.rs:468-506 | a key is the prefix, the namespace, the name of the kind and the id with colons between, where a percent sign and a colon are escaped |
| `StateKeys.ParsesExactly` | src/diff/resource_diff.rs:481-502 | a key has three parts exactly when it is the prefix, a scope, one of four kinds and an id with colons between, none of them empty |
| `StateKeys.NamespaceExactly` | src/diff/resource_diff.rs:477-502 | a key has a namespace exactly when it is well formed, and then it is its decoded scope |
| `StateKeys.DecodesForms` | src/diff/resource_diff.rs:508-540 | which escapes are read, in either case, and that anything else stands as it is written |
| `Ledger.StateFile.Record` | src/state.rs:440-485 | the namespaces in scope are rewritten from the configuration; keys elsewhere are untouched and unparseable keys go |
| `Ledger.StateFile.RecordOp` | src/state.rs:504-528 | an acknowledged delete forgets the key; an acknowledged write owns it only while it is declared |
| `Ledger.StateFile.ReserveAdds` | src/state.rs:537-562 | creates are announced in order up to the first whose row is not declared, which is named, and the count is that of the new keys |
| `Ledger.StateFile.ReconcilePendingCreates` | src/state.rs:594-680 | the announcements that are left, how many were dropped, and which were warned about |
| `Ledger.StateFile.ReconcileAbsentManagedResources` | src/state.rs:682-710 | an owned key is dropped exactly when its namespace was read and it is neither declared nor live |
| `Ledger.StateFile.RecordFullReplace` | src/state.rs:712-759 | after a full replacement of a namespace its entries are exactly what was declared |
| `Ledger.Fate` | src/state.rs:594-680 | the decision for one announcement, case by case, is the keeping rule and the warning rule |
| `Ledger.ReconciliationIsIdempotent` | src/state.rs:594-680 | reconciling twice is reconciling once |
| `Ledger.ReconciliationSettles` | src/state.rs:594-680 | an announcement is left exactly when it is not owned, can be read, and, if its namespace was read, is declared and not replaced whole; nothing is both owned and announced then |
| `Ledger.SettlesExactly` | src/state.rs:594-710 | which owned and which announced keys are left when both reconciliations follow each other, said of declared and live rows |
| `Ledger.WarnedExactly` | src/state.rs:594-680 | a dropped announcement is warned about exactly when it cannot be read, or its row is live but no longer declared |
| `Ledger.AnnouncingKeepsOwnership` | src/state.rs:537-562 | announcing changes no ownership and covers every create |
| `Ledger.StepKeepsDisjoint` | src/state.rs:440-759 | every ledger change keeps owned and announced keys apart |
| `Ledger.RunKeepsDisjoint` | src/state.rs:440-759 | every sequence of ledger changes keeps them apart |
| `Ledger.StepDropsOnlyWithGrounds` | src/state.rs:440-759 | a change drops an owned key exactly on the stated grounds |
| `Ledger.OwnershipIsLostOnlyWithGrounds` | src/state.rs:440-759 | over any sequence, a lost key was lost at a step with grounds: a delete, a rewrite of its namespace, or proof that it is neither declared nor live |
| `Ledger.StepForgetsOnlyWithGrounds` | src/state.rs:440-759 | a change drops an announcement exactly on the stated grounds |
| `Ledger.StepAnnouncesOnlyCreates` | src/state.rs:440-759 | a key becomes announced exactly by a create of a row that is not owned |
| `Ledger.AnnouncementIsLostOnlyWithGrounds` | src/state.rs:440-759 | over any sequence, a lost announcement was lost at a step with grounds |
| `Ledger.StepOwnsOnlyDeclared` | src/state.rs:440-528 | a key becomes owned exactly by an acknowledged write of a declared row or a rewrite that declares it |
| `ApplyProtocol.DeclaredKeys` | src/state.rs:915-950 | looking a key up among declared keys asks exactly whether the row is declared |
| `ApplyProtocol.RecordsLast` | src/state.rs:504-528 | after recording acknowledged operations, the last one that settles a key decides it: forgotten after a delete, owned after a write |
| `ApplyProtocol.InvKept` | src/main.rs:3464-3896 | every step, crash and outside edit keeps the relation between the ledger on disk, the ledger in memory and the plan |
| `ApplyProtocol.DeletesAreEarned` | src/reconcile.rs:43-78 | over every behaviour, a run deletes a row only if an earlier run claimed that row while declaring it; it is owned on disk, not merely announced, and not declared now |
| `ApplyProtocol.CreatesAreAnnounced` | src/main.rs:3645-3668 | over every behaviour, each create is sent only after its key is on disk |
| `ApplyProtocol.AnnouncedOnlyIsNeverDeleted` | src/main.rs:3464-3472 | a row that was announced but never claimed is deleted by no run |
| `ApplyProtocol.DeletedRowsWereSeen` | src/main.rs:3464-3548 | over every behaviour, a row that a run deletes was live when the run read it, and no API spec owned it |
| `ApplyProtocol.AdoptedRowsMatched` | src/main.rs:3464-3548 | over every behaviour, a row that a run takes over unchanged was live as it is declared, and was neither owned nor announced |
| `ApplyProtocol.RefusedNamespacesAreLeftAlone` | src/main.rs:3435-3475 | over every behaviour, a run that acts on a row has planned, and has not refused the row's namespace |
| `ApplyProtocol.DiskStaysDisjoint` | src/state.rs:440-759 | at every moment the ledger on disk keeps owned and announced keys apart |
| `ApplyCommand.StateDisk.Save` | src/state.rs:378-412 | a save replaces the ledger whole, or fails and changes nothing: when the file cannot be written, or for a ledger that could not be loaded back |
| `ApplyCommand.CmdApply` | src/main.rs:3464-3896 | for every ledger, diff, refused namespaces, threshold, sender and writability: whether requests are sent, the outcome, and the ledger it leaves on disk; a large prune that is not allowed is refused before anything is announced or sent |
| `ApplyCommand.CommandExactly` | src/main.rs:3464-3896 | that description of the outcome and the disk, over the inputs of the command alone |
| `ApplyCommand.LargePruneIsExact` | src/main.rs:3500-3562 | the guard refuses exactly when rows are to be deleted and managed, the deletes exceed the threshold percentage of the managed keys in the namespaces that were read, and large prunes are not allowed |
| `ApplyCommand.PlanIsUnblocked` | src/main.rs:3435-3475 | the plan is exactly the diff outside the refused namespaces |
| `ApplyCommand.ReconcileAndSave` | src/main.rs:3480-3490 | disk and memory are equal afterwards unless a needed save fails; the save is needed exactly when something was dropped |
| `ApplyCommand.AnnounceAndSave` | src/main.rs:3650-3665 | an undeclared create refuses; otherwise disk and memory are equal afterwards unless a needed save fails |
| `ApplyCommand.RecordAndSave` | src/main.rs:3868-3896 | every acknowledged operation is recorded in order before the last save, which may fail |
| `ApplyCommand.SentCreatesAreOnDisk` | src/main.rs:3645-3668 | when requests go out, every create in the plan is announced or owned in the ledger that was saved, and declared |
| `ApplySegment.CommandIsSegment` | src/main.rs:3464-3896 | whatever the command and others meanwhile do, its steps, in its order, are steps of the protocol, and end with the ledger that the command leaves on disk |
| `ApplySegment.BehaviorGoesOn` | src/main.rs:3464-3896 | any behaviour can be followed by such a stretch of steps and is a behaviour again |
| `ApplySegment.RecordingIgnoresOrder` | src/main.rs:3870-3880 | recording the applied operations first and the adopted rows after them gives the ledger of recording each as it was acknowledged |
| `ApplySegment.CommandDeletesAreEarned` | src/main.rs:3491-3668 | after any history of applies, crashes and outside edits, a delete the command sends is of a row it does not declare and that an earlier run claimed |
| `ApplySegment.AnEarnedDeleteExists` | src/main.rs:3464-3896 | for every row there is a behaviour of two commands that creates and then deletes it, so none of this is empty |
| `HttpRetry.SendWithRetry` | src/http_client.rs:570-678 | the loop's attempts, result and retried flag against any peer: all attempts but the last were ones that may be followed by another |
| `HttpRetry.ReplayIsAuthorised` | src/http_client.rs:1891-1980 | for each kind of request, exactly which answers authorise another send, said of the body that arrived |
| `HttpRetry.RunIsDetermined` | src/http_client.rs:570-678 | the description of a run fixes the number of attempts and the result |
| `HttpRetry.NeverExhausted` | src/http_client.rs:594-677 | attempts never exceed retries plus one, and the last return is never reached |
| `HttpRetry.AttemptsExactly` | src/http_client.rs:594-677 | the loop goes on exactly while the answer may be followed by another attempt and one of the retries is left |
| `HttpRetry.CreatesAreAnsweredOnce` | src/http_client.rs:1960-1962 | a create or batch is sent again only after a failed connection, and is never reported as retried |
| `HttpRetry.RestoresAreResentOnProof` | src/http_client.rs:1963-1980 | a restore is sent again only after answers that were a marker-free 503 with connectivity |
| `HttpRetry.WritesAreNotReplayedBlindly` | src/http_client.rs:635-648 | no request follows an answer reporting a durable write, and no write follows a malformed envelope |
| `TokenCache.AdminClient.TokenAt` | src/http_client.rs:485-525 | which token is returned and what is cached, registration refusals included |
| `TokenCache.AdminClient.SetNamespaceScope` | src/http_client.rs:414-425 | the scope is the non-empty names in first-seen order, and the cached token is gone |
| `TokenCache.ScopeIsExact` | src/jwt.rs:94-107 | the scope names exactly the non-empty namespaces asked for, each once |
| `TokenCache.MintedLifetime` | src/jwt.rs:136-181 | a minted token lives for the configured time, its margin is at most 300 seconds and half its life, and no saturation changes the bounds |
| `TokenCache.CacheHasOrigin` | src/http_client.rs:485-525 | over every run, what is cached was minted by an earlier request under the scope still in force |
| `TokenCache.TokensAreCurrent` | src/http_client.rs:470-525 | over every run, a returned token was valid from its minting, has more than its margin left by the wall clock, is young enough by the monotonic clock when reused, and names the namespaces last asked for, or none when none were |
| `TokenCache.ReusedExactly` | src/http_client.rs:485-500 | over every run, the cached token is reused exactly while it is neither from the future nor within its margin by the wall clock, and the same span has not gone by on the monotonic clock |
| `TokenCache.TokenExactly` | src/http_client.rs:485-525 | what one request gives: the cached token while it may be reused, else a fresh one, and otherwise which error |
| `TokenCache.CacheHoldsTheToken` | src/http_client.rs:485-525 | a request leaves the token it gave in the cache, and one that gave none leaves the cache alone |
| `Pagination.FetchPage` | src/http_client.rs:1034-1053 | one turn: the next offset is the number of rows received, and never overflows |
| `Pagination.FetchPages` | src/http_client.rs:1029-1059 | the loop ends against every server, each offset asked for being the rows received so far |
| `Pagination.MergePages` | src/http_client.rs:2432-2447 | merging drops repeats across pages and keeps first-seen order |
| `Pagination.ListNamespaces` | src/http_client.rs:1029-1061 | success needs an empty page, a covered total or a short page without one, and gives every row received without repeats |
| `Pagination.HonestListingIsWhole` | src/http_client.rs:1024-1028 | a fixed list of up to 100000 rows served with its total comes back whole, whatever the page size |
| `Pagination.UncountedListingIsWhole` | src/http_client.rs:2384-2430 | without a total, full pages come back whole exactly when the list is shorter than 100000 rows |
| `Pagination.UncountedServerIsHonest` | src/http_client.rs:2384-2430 | for every list there is a server that sends it in full pages and no total |
| `Pagination.ListingAtTheBoundIsRefused` | src/http_client.rs:2417-2419 | of a list of exactly 100000 rows, every listing against that server is refused |
| `Pagination.ListingAtTheBoundExists` | src/http_client.rs:2417-2419 | and there is one: a hundred full pages, the last of which meets the bound |
| `FirstSeen.DistinctIsDistinct` | src/http_client.rs:2436-2447 | dropping repeats keeps each value once, in the order of first appearance |
| `FirstSeen.DropRepeats` | src/http_client.rs:2436-2447 | the loop with its set of seen values computes that list |
| `FirstSeen.DistinctKeepsDistinct` | src/http_client.rs:2436-2447 | a list without repeats is kept whole |
| `JsonPointer.IndexesRoundTrip` | src/config_export.rs:642-649 | a pointer segment is read as position n exactly when it is n written in decimal |
| `JsonPointer.DecimalIs` | src/config_export.rs:642-649 | a position is written in decimal digits without a leading zero, and they spell it |
| `JsonPointer.ChildExactly` | src/config_export.rs:709-709 | a segment leads to the member with that key, or to the item at the position it spells |
| `JsonPointer.UnescapeUndoesEscape` | src/config_export.rs:662-672 | reading an escaped segment gives the segment back |
| `JsonPointer.EscapesAsTheStandard` | src/config_export.rs:662-672 | a tilde is written as ~0, a slash as ~1, and every other character as it is (section 3 of RFC 6901) |
| `JsonPointer.DecodeUndoesEncode` | src/config_export.rs:662-672 | decoding a path's pointer gives the path back (sections 3 and 4 of RFC 6901) |
| `JsonPointer.EncodeIsInjective` | src/config_export.rs:662-672 | two paths with one pointer are one path |
| `JsonPointer.PushEncodes` | src/config_export.rs:662-672 | pushing a segment onto a path's pointer gives the longer path's pointer |
| `JsonPointer.PointersNestAsPathsDo` | src/config_export.rs:536-541 | one pointer starts with another and a slash exactly when its path strictly extends the other |
| `JsonPointer.LookupFollowsPath` | src/config_export.rs:709-709 | looking a value up by pointer text follows the path |
| `LiveView.SecretBearingIsAboutPlaces` | src/config_export.rs:529-542 | comparing pointer texts decides exactly "is a secret place" and "is above one" |
| `LiveView.PointerBuffer.PushPointerSegment` | src/config_export.rs:662-672 | the loop appends a slash and the escaped segment |
| `LiveView.FingerprintIs` | src/config_export.rs:119-133 | a fingerprint is the algorithm, a colon and 64 lower-case hexadecimal digits, nothing else |
| `LiveView.SubstituteFingerprints` | src/config_export.rs:699-735 | the walk with its shared pointer and record returns the substituted tree, restores the pointer and extends the record |
| `LiveView.SubstitutionMeetsDeclaration` | src/config_export.rs:315-327 | the substituted tree is the declared one exactly when the live tree differed from it only by fingerprints at covered places |
| `LiveView.SubstitutionIsLocal` | src/config_export.rs:699-735 | the tree at any place is substituted on its own |
| `LiveView.RecordIsExact` | src/config_export.rs:708-714 | the record lists exactly the covered fingerprints, each with its pointer and whether it is an ancestor |
| `LiveView.NothingRecordedNothingChanged` | src/config_export.rs:708-714 | an unchanged record means an unchanged tree |
| `ExportView.CollectSecretValues` | src/config_export.rs:624-651 | the walk with its shared pointer collects into the set what the specification says |
| `ExportView.CollectedIsExact` | src/config_export.rs:624-651 | collecting adds exactly the pointers of the strings that bear a secret |
| `ExportView.ProjectionIsWellFormed` | src/config_export.rs:356-364 | a Consumer is compared without its hidden-credentials member, every other member and every other row as it was |
| `ExportView.ShowRow` | src/config_export.rs:354-373 | one row of the view, and the sites it adds to both records |
| `ExportView.LiveViewWith` | src/config_export.rs:333-385 | every section in export order, and both site lists sorted, for secrets taken from both configurations |
| `ExportView.ViewSitesAreExact` | src/config_export.rs:352-384 | both site lists are in order, and list exactly the hidden-credentials sites of declared Consumers and the recorded sites of each row, or of these the ancestors |
| `ExportView.ViewIsExact` | src/config_export.rs:305-385 | the same, said of the two configurations: the places where the live row holds a fingerprint and the declaration, before or after resolution, has a secret or a place above one; the lists are ordered by kind, id and pointer |
| `ExportView.ViewListsOnce` | src/config_export.rs:352-384 | when no two rows are of one kind and id, no site is listed twice |
| `ExportView.ShownExactly` | src/config_export.rs:699-735 | at such a place the view shows what is declared; any other scalar is shown as it is live |
| `ExportView.SectionIsExact` | src/config_export.rs:352-373 | a section holds the rows of its kind, as shown, in export order |
| `ExportView.RowComparesCleanly` | src/config_export.rs:305-331 | a declared row compares equal exactly when the live row differs from it only at covered places |
| `ExportView.CoveredPlacesAreSecret` | src/config_export.rs:708-714 | the covered places are exactly the declared secret places and the declared places above them, covered by the declared value |
| `ExportView.UnrecordedRowIsUnchanged` | src/config_export.rs:365-373 | a row without a recorded site is shown as the export has it |
| `Buckets.FiledFiles` | src/display.rs:546-557 | adding an item keeps every bucket free of repeats, in its place and largest first |
| `Buckets.FirstFitIsLargest` | src/display.rs:566-577 | the first item of a bucket that fits is a largest one that fits |
| `NeedleIndex.LongestMatch` | src/display.rs:559-577 | the reference: the longest registered needle a text starts with |
| `NeedleIndex.ReplacedIsScan` | src/display.rs:559-585 | replacing cuts a text into bytes kept, where no needle stands, and needles found, each a longest one where it stands, and shows the marker for each of them |
| `NeedleIndex.AddNeedles` | src/display.rs:546-557 | the loop over needles files each in its bucket and sorts it |
| `NeedleIndex.AddingIndexes` | src/display.rs:546-557 | the index then holds exactly the old needles and the new ones, each once, in its bucket, longest first |
| `NeedleIndex.BucketFindsLongest` | src/display.rs:566-577 | looking in one bucket finds the longest registered needle a text starts with |
| `NeedleIndex.Redact` | src/display.rs:560-580 | the scan replaces what its bucket lookup finds, from left to right |
| `NeedleIndex.ScanIsLeftmostLongest` | src/display.rs:559-585 | for every text, the indexed scan is leftmost-longest replacement over all needles indexed |
| `Admission.Admit` | src/display.rs:434-495 | the admission loops compute the staged values and their charge, or the first refusal |
| `Admission.StagedIsSound` | src/display.rs:454-490 | staged values are new, distinct and protectable, cover the batch, and are charged what they cost |
| `Admission.AdmittedExactly` | src/display.rs:434-497 | a batch is admitted exactly when no value is too short, the budget has room for each new value in turn and for their charge, and each can be protected; a refusal names the first of these that failed |
| `Admission.StagedFits` | src/display.rs:463-490 | with an honest worst case the charge fits what is available |
| `Admission.TotalCostWith` | src/display.rs:491-497 | admitting distinct new values adds their costs to the total |
| `Registration.Registry.Register` | src/display.rs:428-535 | the single admission path, updating its fields in place, makes exactly the specified change |
| `Registration.MadePrivateIsExact` | src/display.rs:502-532 | a window becomes private exactly when a candidate holds it and nothing public explains it |
| `Registration.RegisteringKeeps` | src/display.rs:424-535 | a registration keeps the charge equal to the cost of what is held and within the budget, keeps the index right, and either grows what is held or only sets the refusal |
| `Registration.AcceptedIsProtected` | src/display.rs:424-535 | after an accepted batch every candidate is held and each of its windows is private or public |
| `Registration.AcceptedLasts` | src/display.rs:424-535 | over every run, what an accepted batch offers stays held, and each of its windows private unless its own document explains it |
| `Registration.KnownExactly` | src/display.rs:424-535 | over every run, what is held is exactly what accepted calls offered |
| `Registration.PrivateExactly` | src/display.rs:502-532 | over every run, a window is private exactly when an accepted call offered a value with it and nothing public explained it then |
| `Registration.HazardExactly` | src/display.rs:498-501 | over every run, the flag is set exactly when some value held is hazardous |
| `Registration.RunKeeps` | src/display.rs:428-535 | the invariant holds after every sequence of registrations |
| `Registration.RunGrows` | src/display.rs:537-544 | over every run nothing held is dropped, and a refusal is permanent |
| `DisplayRegistry.WindowIsRun` | src/display.rs:242-256 | every window of a text is eight consecutive bytes of it |
| `DisplayRegistry.RunIsWindow` | src/display.rs:242-256 | every eight consecutive bytes of a text are one of its windows |
| `DisplayRegistry.NeedlesExactly` | src/display.rs:231-238 | the needles of a value are exactly its spellings of eight bytes or more, each once |
| `DisplayRegistry.EntryExactly` | src/display.rs:231-262 | an entry's windows are exactly the runs of eight bytes of the value's spellings |
| `DisplayRegistry.CostExactly` | src/display.rs:264-282 | an entry is charged 256 bytes, its value, each needle twice at 64 bytes more than it holds, and 40 bytes a window, up to the largest count |
| `DisplayRegistry.WorstCaseExactly` | src/display.rs:284-304 | the worst case of a value is 2017 times its length and 13056 bytes, up to the largest count |
| `DisplayRegistry.CostIsWithinWorstCase` | src/display.rs:264-303 | an entry spelled within sixteen spellings and 48n + 256 bytes is charged at most the worst case |
| `DisplayRegistry.RedactText` | src/display.rs:559-586 | the scan, when anything is indexed, and then the credential shapes of the text that is left |
| `DisplayRegistry.BooksBalance` | src/display.rs:406-535 | over every run the charge is the summed cost of the entries within 128 MiB, the index is exact, and every private window belongs to an entry |
| `DisplayRegistry.HistoryRedactsLongest` | src/display.rs:559-585 | for every registration history and every text, redaction is leftmost-longest over every spelling of eight bytes or more of every value held, and then the credential shapes |
| `DisplayRegistry.HeldExactly` | src/display.rs:424-535 | over every history, the values held are exactly those that accepted calls offered |
| `DisplayRegistry.HazardHeldExactly` | src/display.rs:497-501 | over every history, the hazard flag is set exactly when a value held is hazardous to re-encode |
| `DisplayRegistry.AcceptsExactly` | src/display.rs:434-497 | a call is accepted exactly when none was refused before, every value has eight bytes or more, and each new one has room and no review form under eight bytes; a short value is what a refusal names first |
| `DisplayRegistry.RefusalIsPermanent` | src/display.rs:434-436 | over every run, after a refusal nothing changes again |
| `DisplayRegistry.LastCheckNeverRefuses` | src/display.rs:491-495 | when values are spelled within the bound the final charge check never refuses |
| `TextCodec.BytesPrefix` | src/display.rs:570-580 | a text whose bytes start with another text's bytes starts with that text, so a needle ends at a character boundary |
| `TextCodec.TextOfUndoes` | src/display.rs:581-585 | reading the bytes of a text gives the text back |
| `Utf8Redaction.ReplacingGivesText` | src/display.rs:580-585 | replacing texts by a text in the bytes of a text gives the bytes of a text |
| `Utf8Redaction.RedactionStaysText` | src/display.rs:580-585 | for every registration history and every text, what replacing needles leaves is the UTF-8 of a text, so the lossy fallback is never reached and the shape pass sees that text |
| `LineScrubber.LinesPartition` | src/display.rs:637-638 | the lines are the text, cut after each newline |
| `LineScrubber.LeakRanges` | src/display.rs:606-614 | the ranges are exactly the positions of leaking windows |
| `LineScrubber.ScrubText` | src/display.rs:627-653 | the pass over lines, with its running offset, shows what the specification says, or only the refusal |
| `LineScrubber.LineStructureIsKept` | src/display.rs:637-651 | the output has the same lines, each kept or replaced by the marker with the same end of line |
| `LineScrubber.KeptRunsHoldNoLeak` | src/display.rs:634-647 | no run of kept lines holds a leaking window |
| `LineScrubber.KeptRunsAreVerbatim` | src/display.rs:647-649 | a run of kept lines appears in the output byte for byte |
| `LineScrubber.NothingIsWithheld` | src/display.rs:631-633 | when nothing leaks the redacted text is shown as it is |
| `LineScrubber.LeakInLine` | src/display.rs:634-646 | a line that holds a leak is withheld |
| `DisplaySink.AnyDecodedView` | src/display.rs:1201-1218 | the walk over decoders finds exactly whether a view, or a view of a view, passes the check |
| `DisplaySink.ScrubDisplay` | src/display.rs:627-653 | the sink shows the reason of a refusal and nothing else, or the redacted text without the lines that leak |
| `DisplaySink.DisplayKeepsLines` | src/display.rs:637-651 | what is shown has the lines of the redacted text, each kept or replaced by the marker |
| `DisplaySink.WithheldExactly` | src/display.rs:634-647 | a line is withheld exactly when a private run that is not in the program's prose overlaps it, or shows in what its body decodes to, once or twice |
| `DisplaySink.DisplayedExactly` | src/display.rs:54-62 | for every registration history and every text: a refusal shows its reason alone; otherwise every long spelling of every value held is replaced, and each line is shown, or withheld with its end of line, by whether it leaks |
| `DisplaySink.PrivateHeldExactly` | src/display.rs:424-535 | over every history, a run of eight bytes is private exactly when an accepted call offered a value spelled with it and its document did not explain it |
| `DisplaySink.RegisteredStaysPrivate` | src/display.rs:424-535 | over every registration history, each eight-byte run of each spelling of each value accepted is private unless its own document explains it |
| `DisplaySink.KeptLinesShowNothingRegistered` | src/display.rs:54-62 | for every registration history and every text, no run of kept lines shows eight bytes of any spelling of any value accepted, unless they are in the program's prose or in the document the value came with |
| `DisplaySink.EscapedSecretsAreWithheld` | src/display.rs:54-62 | a line is withheld when it holds, after bytes without a backslash, the escaped form of a text that shows a private run |
| `EscapeCodec.AsciiJsonEscaped` | src/display.rs:207-228 | the escaping loop computes the escaping function |
| `EscapeCodec.UnescapeBackslashes` | src/display.rs:1264-1349 | the decoding loop ends and computes the decoding function |
| `EscapeCodec.CodedFits` | src/display.rs:1294-1343 | every escape lies within the input and is no shorter than what it stands for |
| `EscapeCodec.EscapedCharIsRead` | src/display.rs:1264-1349 | one escaped character is read back as its own bytes whatever follows, surrogate pairs included |
| `EscapeCodec.UnescapeUndoesEscape` | src/display.rs:207-228 | for every text, unescaping the escaped form gives its UTF-8 bytes (section 7 of RFC 8259) |
| `EscapeCodec.UnescapeReadsWithin` | src/display.rs:1264-1349 | an escaped text is read wherever it stands after bytes without a backslash, whatever follows |
| `EscapeCodec.EscapedIsBounded` | src/display.rs:207-228 | the escaped form is printable ASCII, at most six times the UTF-8 bytes |
| `EscapeCodec.EscapedExactly` | src/display.rs:207-228 | the escaped form is what JSON in ASCII writes for the text, character by character: short escapes, printable characters, and lower-case UTF-16 units otherwise |
| `EscapeCodec.Utf8IsStandard` | src/display.rs:1253-1259 | the bytes of a character are its UTF-8, whose length is given by its range (section 3 of RFC 3629) |
| `EscapeCodec.SimpleEscapeIsRead` | src/display.rs:1275-1294 | which one-character escapes are read, and as what |
| `EscapeCodec.ByteEscapeIsRead` | src/display.rs:1296-1302 | two hexadecimal digits after x are one byte |
| `EscapeCodec.ShortEscapeIsRead` | src/display.rs:1313-1334 | four digits after u are a character, unless they are half of a surrogate pair |
| `EscapeCodec.PairEscapeIsRead` | src/display.rs:1313-1328 | two halves of a surrogate pair are one character |
| `EscapeCodec.BracedEscapeIsRead` | src/display.rs:1303-1312 | digits in braces after u are a character, however many there are |
| `EscapeCodec.LongEscapeIsRead` | src/display.rs:1335-1342 | eight digits after U are a character |
| `EscapeCodec.UnreadIsKept` | src/display.rs:1264-1349 | a backslash that starts none of these escapes is kept, and what follows it is read on its own |
| `EscapeCodec.DecodedIsNoLonger` | src/display.rs:1264-1349 | decoding never lengthens |
| `EscapeCodec.PlainBytesAreKept` | src/display.rs:1270-1274 | bytes without a backslash are left alone |
| `CredentialShapes.RedactCredentialShapes` | src/display.rs:1070-1127 | the streaming pass, which remembers one word and one flag, computes the two-pass form |
| `CredentialShapes.RunsPartition` | src/display.rs:1090-1095 | the runs are the text, cut into alternating word and gap runs |
| `CredentialShapes.StreamingIsTwoPass` | src/display.rs:1070-1127 | streaming equals cutting into runs and then replacing credential words |
| `CredentialShapes.CredentialShapeIs` | src/display.rs:1084-1093 | which words look like a credential: three filled parts after eyJ, or a GitHub prefix and sixteen more bytes |
| `CredentialShapes.RendersExactly` | src/display.rs:1070-1127 | run by run, a word that looks like a credential, or follows Bearer after blanks alone, is shown as the marker, and every other run as it is |
| `CredentialShapes.RedactingIsIdempotent` | src/display.rs:1070-1127 | redacting what was redacted changes nothing more |
| `CredentialShapes.MarkingIsSound` | src/display.rs:1079-1089 | the marker is not itself a credential or a scheme |
| `PluginScope.EffectivePlugins` | src/plugin_catalog.rs:370-402 | the vector built, extended and sorted is the merged list |
| `PluginScope.EffectiveIsExact` | src/plugin_catalog.rs:341-369 | a plugin is in effect exactly when it is enabled in the namespace and attached, or global and size-limiting or not replaced by an attached instance of its name |
| `PluginScope.EffectiveConserves` | src/plugin_catalog.rs:370-402 | a plugin appears as often as it is configured if it is in effect, and otherwise not at all |
| `PluginScope.EffectiveIsOrdered` | src/plugin_catalog.rs:399-401 | the list is in priority order, and equals keep their order, globals first; a priority is the override, else the built-in one, else 5000 |
| `PluginAuth.NewAllowlist` | src/plugin_catalog.rs:650-685 | names are trimmed and blanks dropped, and declarations that trim to one name are narrowed to what all of them allow |
| `PluginAuth.AuthCoverageOf` | src/plugin_catalog.rs:813-857 | the classification loop fills the three lists, the uncovered protocols and the listener verdict |
| `PluginAuth.ClassesPartition` | src/plugin_catalog.rs:728-757 | the three lists partition the allowlisted plugins in effect |
| `PluginAuth.ClassesAreExact` | src/plugin_catalog.rs:813-857 | which list an allowlisted plugin in effect is in, and which protocols are left uncovered |
| `PluginAuth.TablesAreExact` | src/plugin_catalog.rs:543-560 | which protocols a listener serves, and when it can establish an identity |
| `PluginAuth.ProtocolsAreExact` | src/plugin_catalog.rs:574-600 | on which protocols a plugin of a name authenticates |
| `PluginAuth.TrimIs` | src/plugin_catalog.rs:650-685 | trimming takes whitespace off both ends, and leaves none there |
| `PluginAuth.TrimmedNamesAre` | src/plugin_catalog.rs:650-685 | the allowlist holds exactly the trimmed names that are not blank |
| `PluginAuth.AuthenticatedExactly` | src/plugin_catalog.rs:759-763 | authenticated exactly when the listener can establish an identity, and on every protocol it serves an unconditional allowlisted plugin in effect authenticates |
| `PluginAuth.NoGapExactly` | src/plugin_catalog.rs:776-805 | no exemption gap exactly when the listener can establish an identity, and every protocol it serves is guarded at least conditionally |
| `PluginAuth.ProxyIsAuthenticatedExactly` | src/plugin_catalog.rs:329-857 | the verdict, from the configuration, the allowlist and the names of the authentication plugins alone |
| `LogSanitizer.LogLine.NeutralizeWorkflowCommands` | src/diagnostics.rs:90-95 | the line is rewritten in place: brackets of legacy commands are parted, and a leading command is guarded |
| `LogSanitizer.SanitizeSingleLine` | src/diagnostics.rs:134-141 | one line is bounded, cleaned, marked when cut, and then neutralized |
| `LogSanitizer.Sanitize` | src/diagnostics.rs:116-122 | a scalar is sanitized as one line of at most 512 characters |
| `LogSanitizer.SanitizeLine` | src/diagnostics.rs:124-132 | a composed line is sanitized as one line of at most 65536 characters |
| `LogSanitizer.SanitizeBlock` | src/diagnostics.rs:150-171 | each line is neutralized on its own, and the marker is appended last |
| `LogSanitizer.InertIsClean` | src/diagnostics.rs:85-95 | a neutralized line holds no workflow command of either syntax |
| `LogSanitizer.InertKeepsVisible` | src/diagnostics.rs:85-95 | neutralizing only inserts replacement characters |
| `LogSanitizer.BreaksAt` | src/diagnostics.rs:90-95 | a legacy command is parted by one replacement character before its bracket, and the text before it is kept |
| `LogSanitizer.GuardsExactly` | src/diagnostics.rs:90-95 | a line is led by one replacement character exactly when it would start a command |
| `LogSanitizer.CleanExactly` | src/diagnostics.rs:55-95 | what clean means: no control character or line separator, no ## before a bracket, and no two colons after leading blanks |
| `LogSanitizer.SingleLineIsClean` | src/diagnostics.rs:18-29 | for every input, a sanitized line has no control character and no workflow command, and shows all that was kept of the input |
| `LogSanitizer.SingleLineKeepsClean` | src/diagnostics.rs:134-141 | within the bound, sanitizing leaves a text alone exactly when it was clean |
| `LogSanitizer.CleanLineIsKept` | src/diagnostics.rs:143-166 | a clean line of a block is shown as it is, without the carriage return that ends it |
| `LogSanitizer.SingleLineShows` | src/diagnostics.rs:134-141 | what can be read of a sanitized line is what could be read of the input up to the bound, and the marker when it was cut |
| `LogSanitizer.BlockKeepsLines` | src/diagnostics.rs:143-166 | a block that was not cut keeps its lines, each clean |
| `LogSanitizer.BlockShows` | src/diagnostics.rs:143-171 | a block shows its lines, each with what can be read of it, up to 65536 characters, and the marker after the last of one that was cut |
| `LogSanitizer.BlockIsCleanExactly` | src/diagnostics.rs:150-171 | every line of a sanitized block is clean exactly unless the block was cut right after two hashes |
| `LogSanitizer.CutBlockCanCarryCommand` | src/diagnostics.rs:167-169 | one input for which a line of the output carries a workflow command |

## Left out

- Ledger.StateFile.Record: the four per-kind lists of a configuration are one set of rows tagged by kind, and every `resources` entry carries the same marker value, so the map is modelled by its keys; credential records, audit records and time stamps are not part of this model.
- Ledger.StateFile.RecordOp: the refusal for an operation on a kind the ledger does not know is not modelled, because the four kinds are a closed type here.
- ApplyProtocol.DeletesAreEarned: covers shared ownership with the incremental strategy; exclusive ownership deletes by design whatever is not declared, and full replacement is covered only by the ledger lemmas.
- ApplyCommand.StateDisk.Save: a save is one atomic write whose success is a parameter; locking, temporary files and renaming are not modelled.
- ApplyCommand.CmdApply: the diff, the namespaces that were refused and the sending of requests are parameters; policy checks, credential allocation and delivery, and the audit and shard records of the last save are left out.
- HttpRetry.SendWithRetry: a peer answers each attempt with a status and a body; HTTP, TLS, delays and header parsing are left out, and parsing JSON text is the peer's.
- TokenCache.AdminClient.TokenAt: a token is its claims; signing, the fixed claims and the lock around the cache are left out, and whether signing or registration succeeds is a parameter of each request.
- LiveView.SubstituteFingerprints: the tree is a value and the walk returns the changed tree, so the update in place of tree nodes is not captured; the pointer buffer and the record are updated in place. Members of an object are kept in key order, as the map type the tool is built with keeps them.
- ExportView.LiveViewWith: one export covers one namespace, so a site names its row by kind and id; which strings are brokered placeholders or carry user information, and which plugin config paths the secret classifier flags, are parameters; building declared rows from resources, parsing the snapshot and the fingerprint baseline are left out.
- DisplayRegistry.BooksBalance: how a value is spelled (encodings and review formats) is a parameter; the order of an entry's needles is that of the spellings, not alphabetical, which no result depends on. The texts of refusals and the locations in them are left out.
- DisplayRegistry.RedactText: works on the bytes of a text; reading bytes that are no text replaces each byte that starts no character, which only approximates the lossy reading that `Utf8Redaction.RedactionStaysText` shows is never reached.
- NeedleIndex.ScanIsLeftmostLongest: no claim is made that redacted text holds no needle, as the marker can join with neighbouring bytes; what is proved is which occurrences are replaced, and `DisplaySink` proves that the lines which still show a secret are withheld.
- LineScrubber.ScrubText: the memo of earlier answers is left out because it changes no answer.
- DisplaySink.ScrubDisplay: the collected string literals of the program, the wording of refusals and the decoders besides the one for backslashes are parameters; the stricter policies for one JSON string and for text a peer sent are left out.
- BatchSplit.SplitBatch: the bytes of each resource, and whether a group serializes, are parameters.
- PluginScope.EffectivePlugins: the catalogue of built-in plugins is a parameter giving the priority of each known name.
- PluginAuth.NewAllowlist: a declaration is the set of its protocols; the order it lists them in is never looked at.
- The FingerprintBaseline comparison and the summary verdicts, percent and HTML decoding, JSON re-encoding, the mesh file, reports, command line parsing and the literal lexer of the build script: they would only add easier members.
