# Agent Group: models and proofs of its self-contained algorithms

Agent Group is a desktop and server application that drives coding agents. This project models the
parts of it that are algorithms in their own right, one module a source file or component, and
proves what they are for. Loops stay loops, objects that change stay classes, and every
state-changing member is tied to a specification about which the main results are then proved.

| module | what it models |
|---|---|
| `ImportCycles` | the import-cycle detector of the architecture gate: a recursive search for strongly connected components with low links, a stack and an on-stack set |
| `ProfileRepair` | the repair of a browser profile: stage, displace orphans, install the base entry last, roll back; every file operation may fail |
| `ConcurrentRepairs` | any number of such repairs of one group, their file operations interleaved, with and without the lock under which the application calls them |
| `ImageCopies` | any number of copiers that claim names by exclusive link and reuse identical files, as an interleaved step system and as the copier's own loop |
| `BrowserPipe` | length-prefixed frames over arbitrary chunks, the socket handler, and the registry of tab numbers |
| `ListeningDetector` | the log watcher that keeps 8,192 characters of an unbounded stream |
| `Backpressure` | the sliding buffer of the live UI stream and its lag counters |
| `ComposerSegments`, `ComposerCursor` | the split of a composer prompt into text and inline tokens, and the two cursor maps over the result |
| `SessionReadiness` | the single-flight readiness cache with invalidation, stale settlements and eviction |
| `MacManifest`, `MacManifestMerge` | the macOS update manifest: parser, printer and merge |
| `CodexConfig` | switching plugin sections of a Codex configuration off |
| `DistinguishedName` | the parser of certificate subjects |
| `ProcessRunner` | the process runner as an event machine |
| `DistributionLicenses` | the dependency closure for license staging, the naming of directories and the copies |
| `WorkspaceScan` | the bounded scan of a Studio workspace and the difference of two scans |

`Sorting`, `Strings` and `Wrappers` hold what the models share. Text is a sequence of characters,
bytes are numbers or bit vectors, files and directories are finite maps or functions, and failing or
interleaved operations are choices that the proofs quantify over. `dafny verify dfyconfig.toml`
checks everything.

## What the proofs found

These are properties of the code as it is; each is a lemma with a concrete input or an exact condition.

- A merge is symmetric except for names every object inherits. `merged[key]` reads an inherited
  function for a missing key such as `constructor`, so an extra of that name conflicts in one order and
  not in the other (`ConstructorKeyBreaksSymmetry`; exactly when: `OtherOrderMergesIff`).
- The manifest printer leaves the version unquoted, so a version that reads as a number or a boolean is
  refused when the file is read again. Urls and checksums are unquoted as well; `ParseAfterSerialize` states
  exactly which manifests come back.
- The image copier is documented as idempotent across replays. A replay can create a duplicate exactly when
  some free candidate name comes before the one that holds the image, with other images on all candidates
  before it (`ReplayDuplicatesIff`; from any directory: `CanMintIff`; an instance:
  `FreeSmallerCandidateIsMinted`).
- The cursor maps obey both their laws exactly when the tokens of a prompt store, all told, as many characters as
  they occupy (`CursorLawsOnPrompt`). A quoted mention stores fewer, and the maps are not adjoint
  (`QuotedMentionBreaksTheLaws`); a link without a scheme stores more, and an expanded cursor leaves the text
  (`BareLinkLeavesTheText`).
- The messages a connection delivers are the same for every chunking exactly when the stream decodes or no
  complete frame comes before its first oversized header (`ChunkingIsImmaterialIff`; an instance:
  `OversizedStreamDependsOnChunking`).
- The helper that appends a chunk within the limit also flags an empty chunk that meets a full buffer, although
  nothing was lost (`EmptyChunkIsReported`). Without empty chunks, as streams send them, the flag means loss
  exactly (`OverflowsIff`).
- In the distinguished-name parser an escaped character stands for itself exactly where it begins no
  hexadecimal number (`EscapeReadsBackIff`), so an escaped plus sign or blank before a hexadecimal digit does
  not (`EscapedPlusTakesADigit`). The last attribute is lost exactly when the trimmed text ends inside an
  escape (`SubjectKeepsItsLastAttributeIff`): after a backslash, or after a backslash and one hexadecimal digit
  (`FinalEscapeLosesTheAttribute`).
- The workspace scan refuses more than the path test that its listing uses: a root file named like an
  excluded directory, and everything below a root directory named like an excluded file
  (`ScanFilterIff` states the exact difference).
- Rewriting a configuration text twice equals rewriting it once exactly when no line that survives, other than
  the last of the result, still ends in a carriage return after splitting (`RewritingTwiceIff`; an instance that
  fails: `StrayReturnsAreLost`). On lines the law holds without exception (`DisablingIsIdempotent`).

One result is about a function rather than the running product. The application repairs a browser profile only
under its single-instance lock (`apps/desktop/src/main.ts:35`, `:62-64`), and then every exchange is safe, even if
a process dies anywhere in it (`LockedRepairsAreSafe`). Called without that lock, two repairs that both pass the
second look at the base entry can leave a base without all its sidecars exactly when the group has a sidecar in
the source or in the target (`OverlapBreaksIff`).

## Model

| member | source | states |
|---|---|---|
| ImportCycles.CyclicComponents | scripts/check-architecture-boundaries.ts:179-220 | for every finite graph the lists are alphabetical by first differing character, repetition-free, pairwise disjoint, exactly the strongly connected components with more than one file or a self-import, and there is none exactly when the graph has no directed cycle |
| ImportCycles.Search.Visit | scripts/check-architecture-boundaries.ts:187-214 | the recursive visit terminates because the files without an index shrink; it finishes the file, keeps what was visited before, and leaves the report complete for everything popped |
| ImportCycles.Search.Consider | scripts/check-architecture-boundaries.ts:194-201 | looking at one dependency keeps the low link reached and bounded, whether it is new, on the stack or finished |
| ImportCycles.Search.Leave | scripts/check-architecture-boundaries.ts:203-213 | leaving a file pops and reports its component exactly when the file is its own low link |
| ImportCycles.Search.PopComponent | scripts/check-architecture-boundaries.ts:204-210 | the pop loop takes off exactly the part of the stack from the file upwards |
| ImportCycles.TopMutual | scripts/check-architecture-boundaries.ts:203-210 | every file above a root of the stack reaches the root and is reached from it |
| ImportCycles.TopIsComponent | scripts/check-architecture-boundaries.ts:203-210 | when a file equals its own low link, what lies above it on the stack is a whole strongly connected component |
| ImportCycles.Keep | scripts/check-architecture-boundaries.ts:203 | when it does not, its part stays on the stack and the search invariant survives the return |
| ImportCycles.CyclicTest | scripts/check-architecture-boundaries.ts:211 | the test on length or self-import decides whether a popped component is cyclic |
| ImportCycles.ReportGrows | scripts/check-architecture-boundaries.ts:211-213 | popping a component keeps the report exact: each finished cyclic component listed once, nothing else |
| ImportCycles.FinalReport | scripts/check-architecture-boundaries.ts:216-219 | once every file has an index and no visit is open, the report lists exactly the cyclic components |
| ImportCycles.CycleIffComponent | scripts/check-architecture-boundaries.ts:179-220 | a graph has a directed cycle exactly when it has a cyclic component |
| Strings.LexLeqIff | scripts/check-architecture-boundaries.ts:212 | the order in which names are sorted is alphabetical: one begins the other, or is less at the first character in which they differ |
| ProfileRepair.Repair | apps/desktop/src/desktopUserDataProfile.ts:118-254 | the repair fails exactly when the manifest was unreadable or one of its file operations failed; whatever step fails, each operation leaves the very group it works on consistent, the groups in their order; on a target that no other process changes, every intermediate state keeps all groups consistent and all else untouched, success gives the repaired target and the copied names, and failure stops at one group with the earlier ones repaired; an unreadable manifest fails with nothing copied; a target that needs nothing is not changed |
| ProfileRepair.Profile.RepairGroup | apps/desktop/src/desktopUserDataProfile.ts:150-237 | one group, where another process may change the target while the group is staged, before the second check of its base: it fails exactly when one of its operations failed; installed means equal to the source generation, rolled back means as it was at that check, otherwise untouched, and no operation leaves the base there without all its sidecars |
| ProfileRepair.Profile.Exchange | apps/desktop/src/desktopUserDataProfile.ts:183-234 | displacing and installing completes the group if no operation fails, and otherwise, if the rollback steps succeed, restores the target exactly |
| ProfileRepair.Profile.DisplaceOrphans | apps/desktop/src/desktopUserDataProfile.ts:191-196 | moves exactly the target's sidecars into the backup, and keeps their content there even when a rename fails half way |
| ProfileRepair.Profile.InstallAll | apps/desktop/src/desktopUserDataProfile.ts:197-203 | installing in order ends at the source generation; a failure never leaves the base installed |
| ProfileRepair.Profile.RollBack | apps/desktop/src/desktopUserDataProfile.ts:204-233 | entry by entry the target is as before except where a rollback step of its own failed; with none failing it is as before altogether |
| ProfileRepair.Profile.RemoveInstalled | apps/desktop/src/desktopUserDataProfile.ts:206-215 | removes every installed entry whose removal succeeds and touches no other |
| ProfileRepair.Profile.RestoreDisplaced | apps/desktop/src/desktopUserDataProfile.ts:216-225 | puts back every displaced entry whose rename succeeds and touches no other |
| ProfileRepair.InstallIsSafe | apps/desktop/src/desktopUserDataProfile.ts:183-203 | every prefix of the install order is consistent because the base comes last |
| ProfileRepair.GroupSafeIsWholeSafe | apps/desktop/src/desktopUserDataProfile.ts:149-238 | a state that is safe for the group under repair is safe for all groups |
| ProfileRepair.RepairedPointwise | apps/desktop/src/desktopUserDataProfile.ts:149-238 | repaired groups equal the source; groups whose base existed and entries outside all groups are untouched |
| ProfileRepair.RepairedEntries | apps/desktop/src/desktopUserDataProfile.ts:149-238 | entry by entry, groups whose base was in the source and missing from the target become those of the source, all others stay, and exactly the source entries of the former are reported as copied |
| ProfileRepair.RepairIsIdempotent | apps/desktop/src/desktopUserDataProfile.ts:151-152 | repairing again after success changes nothing and copies nothing |
| ProfileRepair.EntryGroupsWellFormed | apps/desktop/src/desktopUserDataProfile.ts:12-25 | the product's seed groups are disjoint and free of repetition, as the results assume |
| ConcurrentRepairs.ExchangesApartAreSafe | apps/desktop/src/desktopUserDataProfile.ts:149-238 | any number of repairs, interleaved, failing and dying at will, keep the group consistent in every state as long as at most one of them is between its second check of the base and its end |
| ConcurrentRepairs.ExchangesApartAreAllOrNothing | apps/desktop/src/desktopUserDataProfile.ts:181-234 | in such a run an exchange that ends has installed the source generation over what its second check saw, or, with every rollback step successful, has restored exactly that |
| ConcurrentRepairs.LockedRepairsAreSafe | apps/desktop/src/main.ts:35-64 | repairs under the single-instance lock, which is how the application calls them, are such a run: the group is consistent in every state |
| ConcurrentRepairs.ActIsExact | apps/desktop/src/desktopUserDataProfile.ts:181-234 | each file operation of a repair that has the group to itself leaves, entry by entry, the target that its displaced and installed entries make |
| ConcurrentRepairs.ActIsSafe | apps/desktop/src/desktopUserDataProfile.ts:181-225 | each single file operation of a repair that has the group to itself, rollback steps included, leaves the group consistent and its own progress as claimed |
| ConcurrentRepairs.OverlapBreaksIff | apps/desktop/src/desktopUserDataProfile.ts:179-203 | called without the lock, two repairs that overlap freely can leave a base without all its sidecars exactly when the group has a sidecar in the source or in the target |
| ConcurrentRepairs.BreaksBySourceSidecar | apps/desktop/src/desktopUserDataProfile.ts:189-203 | without the lock and with a sidecar in the source: one repair displaces what the other has installed, and that one then installs the base |
| ConcurrentRepairs.BreaksByTargetSidecar | apps/desktop/src/desktopUserDataProfile.ts:189-225 | without the lock and with a sidecar in the target only: one repair completes while the other, which has displaced the sidecar, rolls back |
| ImageCopies.NothingOverwritten | apps/server/src/studioGeneratedImages.ts:122-135 | in every interleaving no existing file changes or disappears |
| ImageCopies.ReturnedNameHoldsBytes | apps/server/src/studioGeneratedImages.ts:176-191 | a returned name holds that copier's bytes, then and for ever after |
| ImageCopies.CopiersConverge | apps/server/src/studioGeneratedImages.ts:176-191 | copiers of equal images that could read the taken names return the same name |
| ImageCopies.NoDuplicateIsMinted | apps/server/src/studioGeneratedImages.ts:186-190 | equal images are created at most once, whoever starts when |
| ImageCopies.ReplayMintsNothing | apps/server/src/studioGeneratedImages.ts:186-190 | an image already held by a candidate name below which all names are taken is not created again |
| ImageCopies.CanMintIff | apps/server/src/studioGeneratedImages.ts:176-191 | from any directory, some run of a copier that reads every taken name creates a file exactly when a free candidate has only other images before it |
| ImageCopies.ReplayDuplicatesIff | apps/server/src/studioGeneratedImages.ts:176-191 | a replay of an image that a candidate holds can create a duplicate exactly when such a free candidate comes before that one |
| ImageCopies.FreeSmallerCandidateIsMinted | apps/server/src/studioGeneratedImages.ts:176-185 | the smallest such directory: with the first name free and the second holding the image, a copier creates the first |
| ImageCopies.ExhaustedOnlyWhenFull | apps/server/src/studioGeneratedImages.ts:176-192 | a copier gives up only when all 10,000 candidates are taken by other images |
| ImageCopies.OwnStepsAreBounded | apps/server/src/studioGeneratedImages.ts:176-193 | each copier finishes within 20,000 steps of its own, whatever the others do |
| ImageCopies.NameInjective | apps/server/src/studioGeneratedImages.ts:47-55 | different collision numbers give different names |
| ImageCopies.CandidateNames | apps/server/src/studioGeneratedImages.ts:47-55 | the first candidate name carries no number, every later one its own |
| ImageCopies.ImagesDirectory.CopyIntoWorkspace | apps/server/src/studioGeneratedImages.ts:173-193 | the copier's loop, with others adding files at every await: it fails exactly when a link failed for another reason than a taken name, overwrites nothing, passes over taken names only, with other bytes if all could be read, returns a name that holds its bytes, creates no file but that one, and gives up only after 10,000 names |
| ImageCopies.ImagesDirectory.ClaimDestinationExclusively | apps/server/src/studioGeneratedImages.ts:122-135 | unless the link fails, a claim creates the file exactly where there was none, and a collision means the name is taken |
| BrowserPipe.WriteUInt32 | apps/desktop/src/browserUsePipeServer.ts:87-96 | the header of a frame reads back as the length written, in either byte order |
| BrowserPipe.BigEndianOrder | apps/desktop/src/browserUsePipeServer.ts:87-103 | big-endian headers are ordered by their first differing byte, from 0 to the greatest |
| BrowserPipe.LittleEndianIsReversed | apps/desktop/src/browserUsePipeServer.ts:87-103 | little-endian headers are big-endian ones read backwards |
| BrowserPipe.HeaderDecides | apps/desktop/src/browserUsePipeServer.ts:98-120 | a header above eight mebibytes ends the decoding, and up to that an unfinished frame waits |
| BrowserPipe.DecodeFrames | apps/desktop/src/browserUsePipeServer.ts:98-120 | the decode loop computes the decoding of the whole buffer |
| BrowserPipe.DecodeEncode | apps/desktop/src/browserUsePipeServer.ts:87-120 | encoded messages decode to themselves with nothing left over |
| BrowserPipe.DecodeAppend | apps/desktop/src/browserUsePipeServer.ts:98-120 | decoding a first part and then the rest behind its remainder equals decoding the whole |
| BrowserPipe.ChunkingAgreesWithStream | apps/desktop/src/browserUsePipeServer.ts:219-232 | for any chunking the connection is destroyed exactly when the stream does not decode; otherwise it delivered and holds back what whole-stream decoding gives, less than one maximal frame |
| BrowserPipe.MessagesSurviveAnyChunking | apps/desktop/src/browserUsePipeServer.ts:87-120 | however encoded messages are split, they arrive exactly, in order, with nothing pending |
| BrowserPipe.ChunkingIsImmaterialIff | apps/desktop/src/browserUsePipeServer.ts:219-232 | all chunkings of a stream deliver the same messages exactly when the stream decodes or has no complete frame before its first oversized header |
| BrowserPipe.OversizedStreamDependsOnChunking | apps/desktop/src/browserUsePipeServer.ts:104-106 | an empty frame before an oversized header is such a stream where they differ |
| BrowserPipe.PipeServer.HandleSocketData | apps/desktop/src/browserUsePipeServer.ts:219-232 | a socket's state follows the connection model and no other socket's state changes |
| BrowserPipe.PipeServer.HandleSocketConnection | apps/desktop/src/browserUsePipeServer.ts:204-217 | a new socket starts empty and disturbs no other |
| BrowserPipe.TabRegistry.TrackTab | apps/desktop/src/browserUsePipeServer.ts:328-343 | a tab keeps its first number for ever, new keys get unused numbers, and no number moves; with tab ids free of colons, as generated ones are, the number is that of exactly this thread and tab |
| BrowserPipe.TabRegistry.ResolveTrackedTabForSession | apps/desktop/src/browserUsePipeServer.ts:399-411 | a requested number wins over the session's selection; an unknown or missing one is an error |
| BrowserPipe.TabKeyInjective | apps/desktop/src/browserUsePipeServer.ts:329 | tab ids without a colon give every tab its own key, whatever the thread ids hold |
| BrowserPipe.TabKeysAgreeIff | apps/desktop/src/browserUsePipeServer.ts:329 | for all ids, two tabs share a key exactly when they are the same, or one thread id continues the other with a colon and a part of the other tab id |
| ListeningDetector.ServerListeningDetector.Push | apps/desktop/src/serverListeningDetector.ts:36-51 | the bounded buffer decides exactly as a search of the whole stream would |
| ListeningDetector.ServerListeningDetector.Fail | apps/desktop/src/serverListeningDetector.ts:27-33 | a failure rejects only a promise that is still open |
| ListeningDetector.TailSuffices | apps/desktop/src/serverListeningDetector.ts:48-50 | dropping the oldest text cannot hide a fragment that later text completes |
| ListeningDetector.ResolvedIffContained | apps/desktop/src/serverListeningDetector.ts:36-51 | without a failure the promise is resolved exactly when all text pushed, without carriage returns, contains the fragment |
| ListeningDetector.ListeningLineResolves | apps/desktop/src/serverListeningDetector.ts:36-51 | text that holds the words `Listening on http://`, returns aside, resolves the promise however it is cut into chunks |
| ListeningDetector.StreamOfRun | apps/desktop/src/serverListeningDetector.ts:42 | removing carriage returns chunk by chunk equals removing them from the whole text |
| ListeningDetector.OnlyReturnsAreStripped | apps/desktop/src/serverListeningDetector.ts:42 | a carriage return goes and all other text is kept in place |
| ListeningDetector.SettlementIsFinal | apps/desktop/src/serverListeningDetector.ts:20-33 | the first settlement wins for ever |
| ListeningDetector.FirstFailureDecides | apps/desktop/src/serverListeningDetector.ts:20-55 | at a first failure the text pushed before it decides between resolved and that failure |
| Backpressure.NormalizeCapacity | apps/server/src/wsStreamBackpressure.ts:29-34 | a capacity is at least one and otherwise the floor, with the default for what is not finite |
| Backpressure.LagState.RecordIngress | apps/server/src/wsStreamBackpressure.ts:43-61 | counts one event and reports exactly when a report is due |
| Backpressure.OfferConserves | apps/server/src/wsStreamBackpressure.ts:85-105 | ingress equals egress, buffered and dropped together; an offer drops one event exactly when the buffer is full |
| Backpressure.RunInv | apps/server/src/wsStreamBackpressure.ts:43-105 | in every run the output is a subsequence in order, every report is at most the true loss after its offer, successive reports grow by at least the step, and the first report comes with the first drop |
| Backpressure.ReportsSpread | apps/server/src/wsStreamBackpressure.ts:53-60 | in every run, of two reports the later figure exceeds the earlier by the step for each report between them |
| Backpressure.ReportsAreFew | apps/server/src/wsStreamBackpressure.ts:53-60 | the number of reports is at most one plus the further loss divided by the step |
| Backpressure.ReportsAreTimely | apps/server/src/wsStreamBackpressure.ts:43-61 | in every run the loss that the counters show exceeds the last reported figure by less than the step, and so does the true loss whenever the buffer is full |
| Backpressure.FullBufferMeansExactLag | apps/server/src/wsStreamBackpressure.ts:36-49 | the counters bound the loss from below, and equal it exactly when the buffer is full |
| Backpressure.LiveUiStream.OnEvent | apps/server/src/wsStreamBackpressure.ts:85-100 | an upstream event is the offer step of the stream system, report included |
| Backpressure.LiveUiStream.Take | apps/server/src/wsStreamBackpressure.ts:100-105 | a dequeue counted by the egress tap is the delivery step |
| ComposerSegments.CollectInlineTokenMatches | apps/web/src/composer-editor-mentions.ts:168-283 | keeps the links, the agent mentions outside links, and the mentions and skills outside both, each as often as proposed, in a stable order by start |
| ComposerSegments.SplitTextIntoPromptSegments | apps/web/src/composer-editor-mentions.ts:285-340 | the segments are tiles that cover the text: raw text and the greedily accepted candidates, no two texts side by side, each candidate beginning inside an accepted one |
| ComposerSegments.SplitPromptIntoComposerSegments | apps/web/src/composer-editor-mentions.ts:353-399 | the same over the whole prompt: each piece between placeholders has exactly its own greedy tokens and each placeholder its context |
| ComposerSegments.SplitIsLossless | apps/web/src/composer-editor-mentions.ts:285-399 | the tiles' pieces concatenate to the text they cover |
| ComposerSegments.PlaceholdersAreTerminalContexts | apps/web/src/composer-editor-mentions.ts:366-386 | placeholders and terminal-context segments correspond one to one, in order, each with its own context |
| ComposerCursor.ExpandCollapsedComposerCursor | apps/web/src/composer-logic.ts:78-153 | the loop computes the expanding map on the clamped cursor |
| ComposerCursor.CollapseExpandedComposerCursor | apps/web/src/composer-logic.ts:183-273 | the loop computes the collapsing map on the clamped cursor |
| ComposerCursor.Clamp | apps/web/src/composer-logic.ts:37-40 | a cursor is clamped into the text, the end standing for what is not finite |
| ComposerCursor.Adjoint | apps/web/src/composer-logic.ts:78-273 | collapse(e) is at most c exactly when e is at most expand(c) |
| ComposerCursor.AdjointIffCovered | apps/web/src/composer-logic.ts:78-273 | that holds on all cursors of a text exactly when the segments stand for at least its length |
| ComposerCursor.CursorLawsIff | apps/web/src/composer-logic.ts:78-273 | no expanded cursor leaves the text exactly when the segments stand for at most its length, so both laws hold exactly when they stand for its length |
| ComposerCursor.MapsAreMonotone | apps/web/src/composer-logic.ts:78-273 | both maps are monotone |
| ComposerCursor.CollapseAfterExpand | apps/web/src/composer-logic.ts:78-273 | collapsing undoes expanding exactly on the positions of the collapsed text |
| ComposerCursor.ExpandAfterCollapse | apps/web/src/composer-logic.ts:78-273 | expanding after collapsing moves a cursor only from strictly inside a token, and to that token's end |
| ComposerCursor.CursorLawsOnPrompt | apps/web/src/composer-logic.ts:78-273 | on a split prompt the maps are adjoint exactly when the tokens do not store too little all told, expanded cursors stay in the text exactly when they do not store too much, and both hold exactly when it cancels out |
| ComposerCursor.WrittenTokensObeyTheLaws | apps/web/src/composer-logic.ts:78-273 | on a prompt whose mentions need no quotes and whose links have a scheme, the laws hold |
| ComposerCursor.QuotedMentionBreaksTheLaws | apps/web/src/composer-logic.ts:89-97 | a quoted mention stores fewer characters than it occupies, and the maps are not adjoint |
| ComposerCursor.BareLinkLeavesTheText | apps/web/src/composer-logic.ts:126-134 | a link without a scheme stores more than it occupies, and an expanded cursor lies behind the text |
| SessionReadiness.RunInv | apps/web/src/agentGroupSessionReadinessCache.ts:13-79 | after every step of every run at most eight entries are ready and every pending entry has its own running preparation |
| SessionReadiness.SettlementDecides | apps/web/src/agentGroupSessionReadinessCache.ts:55-67 | in every run a success whose entry is still pending makes the session ready, unless eight others are ready and none of them was accessed earlier; a failure leaves no entry |
| SessionReadiness.MarkMakesReady | apps/web/src/agentGroupSessionReadinessCache.ts:33-36 | the same for a mark; with eight others ready, all accessed later, the session does not stay |
| SessionReadiness.FailureAllowsANewStart | apps/web/src/agentGroupSessionReadinessCache.ts:61-74 | after a failure the next prepare starts a new preparation with a greater promise |
| SessionReadiness.PrepareJoinsOrIsReady | apps/web/src/agentGroupSessionReadinessCache.ts:42-50 | a prepare of a session that has an entry starts nothing, counts as an access and keeps what the entry is |
| SessionReadiness.InvalidationForgets | apps/web/src/agentGroupSessionReadinessCache.ts:77-79 | an invalidation leaves no entry of its session |
| SessionReadiness.OthersAreUntouched | apps/web/src/agentGroupSessionReadinessCache.ts:29-79 | an event leaves the entries of other sessions as they are, but for ready ones that eviction takes |
| SessionReadiness.SingleFlight | apps/web/src/agentGroupSessionReadinessCache.ts:47-75 | one pending entry means one prepare call: nothing else was started or invalidated for the session since |
| SessionReadiness.ReadyIsJustified | apps/web/src/agentGroupSessionReadinessCache.ts:29-79 | ready implies that since the last invalidation the session was marked, or a preparation started after it succeeded |
| SessionReadiness.StaleSettlementChangesNothing | apps/web/src/agentGroupSessionReadinessCache.ts:55-66 | a preparation overtaken by an invalidation settles without changing any entry |
| SessionReadiness.PromisesGrow | apps/web/src/agentGroupSessionReadinessCache.ts:52-68 | the promise numbers of a run never decrease |
| SessionReadiness.PromisesAreFresh | apps/web/src/agentGroupSessionReadinessCache.ts:52-68 | a start uses up its promise number: from then on every state of the run has a greater one to give |
| SessionReadiness.EvictionIsFair | apps/web/src/agentGroupSessionReadinessCache.ts:13-27 | what the eviction of a step means for a single entry: only a ready one goes, and no survivor was accessed before it |
| SessionReadiness.NewcomerStays | apps/web/src/agentGroupSessionReadinessCache.ts:17-29 | a session that just became ready is kept when fewer than eight others are, or some other was accessed earlier |
| SessionReadiness.DroppingOldestEvicts | apps/web/src/agentGroupSessionReadinessCache.ts:14-26 | dropping the sorted entries down to the capacity is an eviction in that sense |
| SessionReadiness.ReadinessCache.EvictReadyEntriesToCapacity | apps/web/src/agentGroupSessionReadinessCache.ts:13-27 | the loop evicts just enough of the least recently used ready entries |
| SessionReadiness.ReadinessCache.PrepareAgentGroupSession | apps/web/src/agentGroupSessionReadinessCache.ts:38-75 | joins the promise in flight, reports a ready session, or starts one new preparation, and counts as an access |
| SessionReadiness.ReadinessCache.SettlePreparation | apps/web/src/agentGroupSessionReadinessCache.ts:52-67 | success and failure change the map only for the entry that still holds this promise; success leaves it ready, accessed now, if there is room or an older access, and failure removes it |
| SessionReadiness.ReadinessCache.MarkAgentGroupSessionPrepared | apps/web/src/agentGroupSessionReadinessCache.ts:33-36 | a mark is the marking step of the system, eviction included, and leaves the session ready, accessed now, if there is room or an older access |
| SessionReadiness.ReadinessCache.InvalidateAgentGroupSessionReadiness | apps/web/src/agentGroupSessionReadinessCache.ts:77-79 | an invalidation removes the entry, pending or ready, and nothing else |
| MacManifest.ParseMacUpdateManifest | scripts/merge-mac-update-manifests.ts:70-183 | the line loop computes the parse of the text, errors with their line numbers included |
| MacManifest.SkippedKeysChangeNothing | scripts/merge-mac-update-manifests.ts:157-159 | lines for path and sha512 among the top-level lines of a text, whatever they say, leave the manifest it parses to the same |
| MacManifest.ParsedManifestIsGood | scripts/merge-mac-update-manifests.ts:70-183 | whatever the text, a parsed manifest has a version, a date and a file, sizes of digits, and extras with distinct plain names, none of them version, releaseDate, path or sha512 |
| MacManifest.TopStep | scripts/merge-mac-update-manifests.ts:119-162 | wherever a top-level line may stand, a version or date must read as a string and replaces the earlier one, and any other key is put among the extras |
| MacManifest.MisplacedLinesAreRefused | scripts/merge-mac-update-manifests.ts:84-131 | a field without a file entry, an entry cut short and a line of no known form are errors with the number of that line |
| MacManifest.TopLevelMatchIff | scripts/merge-mac-update-manifests.ts:127-131 | a line sets a key exactly when it is a plain key, a colon, white space and a value that is neither empty nor broken by a line end |
| MacManifest.AfterIff | scripts/merge-mac-update-manifests.ts:84-115 | a field of a file entry is its prefix, white space and a value that is neither empty nor broken by a line end |
| MacManifest.CanonicalDigits | scripts/merge-mac-update-manifests.ts:103-113 | a size reads as the number its digits stand for, leading zeros dropped |
| MacManifest.QuotedFieldIsUnquoted | scripts/merge-mac-update-manifests.ts:26-31 | a url or checksum in quotes is read without them, doubled quotes undone |
| MacManifest.SerializeMacUpdateManifest | scripts/merge-mac-update-manifests.ts:245-265 | the printer's loops give the manifest's lines, with exactly its extras in alphabetical order of their keys |
| MacManifest.ParseAfterSerialize | scripts/merge-mac-update-manifests.ts:70-265 | parsing what was printed recovers the manifest exactly when the version reads as itself and every url and checksum is on one line, trimmed and not in quotes; a version that reads as a number or boolean is refused at line 1 |
| MacManifest.LinesReadBack | scripts/merge-mac-update-manifests.ts:70-265 | line by line, the printed extras and date are read back, the files as their urls and checksums read, and the version if it reads as a string; otherwise an error |
| MacManifest.FileLinesInOrder | scripts/merge-mac-update-manifests.ts:246-252 | each file is printed as its url, checksum and size, in this order, three lines a file, behind the version |
| MacManifest.OtherLinesInOrder | scripts/merge-mac-update-manifests.ts:245-265 | the version comes first, the extras behind the files, then the date and a last line feed |
| MacManifest.FileReadsBackIff | scripts/merge-mac-update-manifests.ts:84-113 | a printed file entry is read back exactly when its url and checksum read as themselves |
| MacManifest.ReadsAsItselfIff | scripts/merge-mac-update-manifests.ts:26-100 | an unquoted field reads as itself exactly when it has no white space at its ends and is not in quotes |
| MacManifest.ParsedFilesAreOneLine | scripts/merge-mac-update-manifests.ts:70-183 | no text whatever parses to a url or checksum with a line break |
| MacManifest.ScalarReadsBack | scripts/merge-mac-update-manifests.ts:57-68 | a printed scalar, quoted text included, is read back as itself |
| MacManifest.NumbersPrintShort | scripts/merge-mac-update-manifests.ts:57-68 | a number that was read is printed without leading zeros, trailing zeros of its fraction, or the sign of zero |
| MacManifest.SortedExtrasAreTheSame | scripts/merge-mac-update-manifests.ts:254-260 | printing extras in sorted order changes no value |
| MacManifest.NumericVersionIsRefused | scripts/merge-mac-update-manifests.ts:133-140 | the manifest of version 7 cannot be read back |
| MacManifestMerge.MergeMacUpdateManifests | scripts/merge-mac-update-manifests.ts:204-232 | succeeds exactly when the versions agree and no file or extra conflicts, and then yields the merge; otherwise the error names different versions, a conflicting url or a conflicting key, looked for in this order |
| MacManifestMerge.MergeFiles | scripts/merge-mac-update-manifests.ts:214-223 | succeeds exactly when files of one url are equal, keeps the first position of each url, and names a conflicting one otherwise |
| MacManifestMerge.MergeExtras | scripts/merge-mac-update-manifests.ts:185-202 | succeeds exactly when every key agrees, inherited names counted, and overlays the second on the first |
| MacManifestMerge.MergeIsUnion | scripts/merge-mac-update-manifests.ts:225-231 | a merge has each url once, exactly the files of both, exactly the extras of both, and one of the two dates, which the other precedes |
| MacManifestMerge.LaterDateWins | scripts/merge-mac-update-manifests.ts:227-228 | merged in either order, the result has the date that is greater at the first differing character or continues the other |
| MacManifestMerge.MergeCommutes | scripts/merge-mac-update-manifests.ts:204-232 | merged in either order, two manifests give the same up to the order of files and extras |
| MacManifestMerge.OtherOrderMergesIff | scripts/merge-mac-update-manifests.ts:189-199 | given one order merges, the other does exactly when the first has no inherited name of its own alone |
| MacManifestMerge.ConstructorKeyBreaksSymmetry | scripts/merge-mac-update-manifests.ts:191-193 | an extra named constructor merges in one order only |
| CodexConfig.DisableCodexConfigSections | apps/server/src/codexProcessEnv.ts:98-149 | the line loop equals cutting the text into sections, disabling the target sections and appending the missing ones |
| CodexConfig.AppendMissing | apps/server/src/codexProcessEnv.ts:138-146 | appends exactly the targets that no section carries, in their order |
| CodexConfig.SwitchesTargetsOff | apps/server/src/codexProcessEnv.ts:116-146 | every section of a target ends with at least one enabled line and all of them false; all other lines and sections are kept in order, but for one blank line before an appended section; the appended sections are off |
| CodexConfig.HeaderIff | apps/server/src/codexProcessEnv.ts:117-118 | a line begins a section exactly when it is something in square brackets with white space around it, so every table ends the one before it |
| CodexConfig.EnabledIff | apps/server/src/codexProcessEnv.ts:127 | a line sets the flag exactly when it is the word enabled, an equals sign and anything, with white space before and between |
| CodexConfig.AbsentTargetAppendedOnce | apps/server/src/codexProcessEnv.ts:138-146 | a target without a section gets exactly one, behind all others |
| CodexConfig.UnchangedIff | apps/server/src/codexProcessEnv.ts:98-149 | a configuration is left alone exactly when all target sections are off and, if appending, none is missing |
| CodexConfig.DisablingIsIdempotent | apps/server/src/codexProcessEnv.ts:98-149 | disabling twice equals disabling once, on every list of lines |
| CodexConfig.SectionedFlattened | apps/server/src/codexProcessEnv.ts:116-134 | cutting a flattened document into sections gives the document back |
| CodexConfig.RewritingTwiceIff | apps/server/src/codexProcessEnv.ts:98-149 | for every text, a second rewrite changes nothing exactly when no line that survives, other than the last of the result, ends in a carriage return |
| CodexConfig.StrayReturnIff | apps/server/src/codexProcessEnv.ts:98-149 | that condition on the input lines is the same as: some line of the result other than its last ends in a carriage return |
| CodexConfig.StrayReturnsAreLost | apps/server/src/codexProcessEnv.ts:104 | whatever the targets, a text with a doubled carriage return loses one of the two in each rewrite |
| CodexConfig.Targets | apps/server/src/codexProcessEnv.ts:103 | the targets are the safe headers, each once |
| CodexConfig.SafeHeaderIff | apps/server/src/codexProcessEnv.ts:66-72 | a header is safe exactly when it is a quoted plugin name on one line, within 256 characters |
| CodexConfig.OverlaySwitchesConflictsOff | apps/server/src/codexProcessEnv.ts:275-287 | with at most 32 conflicting local browser sections, the overlay configuration has every one of them off |
| CodexConfig.ConflictIff | apps/server/src/codexProcessEnv.ts:40-42 | a header conflicts exactly when it names a plugin of the local browser in a namespace of six characters |
| CodexConfig.OverlaySwitchesRecordedOff | apps/server/src/codexProcessEnv.ts:275-287 | what an earlier run recorded stays off, while no more than 32 sections are suppressed |
| DistinguishedName.ParseDistinguishedName | apps/desktop/src/electronUpdaterSecurity.ts:160-237 | the loop that moves its own index ends on every text and computes the run without the remembered position, which is only a shortcut |
| DistinguishedName.EscapeFitsAByte | apps/desktop/src/electronUpdaterSecurity.ts:187-194 | a hexadecimal escape of two characters, sign and blanks included, stays within a byte |
| DistinguishedName.HexValueIs | apps/desktop/src/electronUpdaterSecurity.ts:188 | a hexadecimal digit stands for its place among the sixteen, in either case |
| DistinguishedName.ReadsBack | apps/desktop/src/electronUpdaterSecurity.ts:160-237 | attribute lists printed with any spacing, separators, quoted parts, literal escapes and hexadecimal pairs, in names as in values, with spaces inside them, are read back, the last of each name winning |
| DistinguishedName.PlainReadsBackIff | apps/desktop/src/electronUpdaterSecurity.ts:211-233 | a bare character reads back as itself exactly where it may stand: a space only inside a name or value that has begun and goes on behind the spaces |
| DistinguishedName.BareReadsBack | apps/desktop/src/electronUpdaterSecurity.ts:211-233 | text without special characters and outer spaces may stand for a whole name or value as it is, inner spaces included |
| DistinguishedName.SubjectReadsBack | apps/desktop/src/electronUpdaterSecurity.ts:160-237 | every subject of a bare attribute and a quoted one reads back as written |
| DistinguishedName.RunPieces | apps/desktop/src/electronUpdaterSecurity.ts:176-196 | bare characters, quoted parts, escapes and hexadecimal pairs of a name or value are read as what they stand for |
| DistinguishedName.EscapedPlusTakesADigit | apps/desktop/src/electronUpdaterSecurity.ts:186-195 | an escaped plus sign or blank before a hexadecimal digit is read as that digit's number |
| DistinguishedName.EscapedMinusWrapsAround | apps/desktop/src/electronUpdaterSecurity.ts:186-195 | an escaped minus sign before a digit is read as the character that many places from the end |
| DistinguishedName.OneDigitTakesTheNext | apps/desktop/src/electronUpdaterSecurity.ts:186-195 | an escaped digit before another character is read as its number, and that character is lost |
| DistinguishedName.EscapeReadsBackIff | apps/desktop/src/electronUpdaterSecurity.ts:186-196 | for every character and continuation, an escape reads back as the character itself exactly where it begins no hexadecimal number |
| DistinguishedName.LastAttributeIsStoredIff | apps/desktop/src/electronUpdaterSecurity.ts:168-195 | from any state and for every text, the attribute under way at the end is stored exactly when the text does not end inside an escape |
| DistinguishedName.SubjectKeepsItsLastAttributeIff | apps/desktop/src/electronUpdaterSecurity.ts:160-237 | the same for whole subjects after trimming |
| DistinguishedName.FinalEscapeLosesTheAttribute | apps/desktop/src/electronUpdaterSecurity.ts:186-195 | a backslash at the end, alone or before one hexadecimal digit, loses the attribute; inside quotes it is kept |
| ProcessRunner.AppendChunkWithinLimit | apps/server/src/processRunner.ts:105-131 | keeps a prefix up to the limit and says whether the chunk met a full buffer or did not fit |
| ProcessRunner.ProcessRun.AppendOutput | apps/server/src/processRunner.ts:218-251 | one chunk goes to its own stream only, and over the limit gives that stream's buffer error in error mode |
| ProcessRunner.ProcessRun.OnData | apps/server/src/processRunner.ts:253-265 | a chunk is the data step: dropped after an abort, otherwise recorded, failing the run when over the limit |
| ProcessRunner.ProcessRun.OnAbort | apps/server/src/processRunner.ts:179-190 | an abort counts only while the run is neither settled nor timed out; it disarms the timeout and arms the forced kill |
| ProcessRunner.ProcessRun.OnClose | apps/server/src/processRunner.ts:273-295 | the close settles an open run with the abort error, an exit error or the result |
| ProcessRunner.ProcessRun.Finalize | apps/server/src/processRunner.ts:198-209 | only the first settlement counts, and it disarms both timers |
| ProcessRunner.StepKeepsRunInv | apps/server/src/processRunner.ts:160-320 | every event keeps: at most one outcome, never both timed out and aborted, the abort error exactly for aborted runs, no timer after settlement, and a forced kill pending or sent for a run told to stop |
| ProcessRunner.EveryRunIsSafe | apps/server/src/processRunner.ts:160-320 | that holds after every sequence of events, also for a run whose signal was aborted before it started |
| ProcessRunner.OutcomeIsFinal | apps/server/src/processRunner.ts:198-209 | a settled promise keeps its one outcome |
| ProcessRunner.AbortDecides | apps/server/src/processRunner.ts:179-190 | after an abort that precedes settlement and timeout, nothing but the abort error can come |
| ProcessRunner.TimeoutDecides | apps/server/src/processRunner.ts:179-196 | a timeout that comes first is never relabelled an abort |
| ProcessRunner.ResolvedAtClose | apps/server/src/processRunner.ts:273-295 | a run resolves only at a close, with what the buffers hold then, and with a zero or absent code unless others are allowed |
| ProcessRunner.CloseSettles | apps/server/src/processRunner.ts:273-295 | the close settles every open run for ever: an aborted one with the abort error, any other with the result exactly when non-zero exits are allowed or it is not timed out and the code is absent or 0, and else with the exit error |
| ProcessRunner.RejectionHasACause | apps/server/src/processRunner.ts:179-320 | each rejection has its cause: an exit error a timeout or non-zero code at a close, a buffer error output over the limit in error mode, spawn, stdin and abort errors their events |
| ProcessRunner.ErrorsSettle | apps/server/src/processRunner.ts:267-271 | an error of the child or of its input settles an open run for ever; the latter stops the child, and neither relabels an abort |
| ProcessRunner.OutputSettlesIff | apps/server/src/processRunner.ts:218-265 | a chunk settles an open run exactly when, in error mode, its stream is then over the limit, with that stream's buffer error, and stops the child |
| ProcessRunner.StopsTheChild | apps/server/src/processRunner.ts:173-196 | the timeout and an abort each stop a running child once and arm the forced kill, which then comes |
| ProcessRunner.ResolvedOutputIsComplete | apps/server/src/processRunner.ts:218-295 | in error mode a resolved run holds the complete output, within the limit |
| ProcessRunner.ResolvedOutputIsAPrefix | apps/server/src/processRunner.ts:218-295 | in truncate mode it holds the first bytes up to the limit, flagged exactly when some chunk met a full buffer or did not fit |
| ProcessRunner.OverflowsIff | apps/server/src/processRunner.ts:105-131 | the flag means loss, or a chunk that found the buffer full; with no empty chunk it means loss exactly |
| ProcessRunner.EmptyChunkIsReported | apps/server/src/processRunner.ts:115-118 | in the append helper an empty chunk at the limit sets the flag without loss |
| DistributionLicenses.ResolveDependencyRoot | scripts/lib/distribution-licenses.ts:66-85 | the walk ends at the root and returns the package of the nearest enclosing directory, the workspace's own first |
| DistributionLicenses.CandidateOf | scripts/lib/distribution-licenses.ts:76-79 | a scoped package is looked for two directories below node_modules, any other one |
| DistributionLicenses.CollectProductionPackages | scripts/lib/distribution-licenses.ts:87-125 | the worklist ends and returns exactly the roots outside the workspace that entry manifests reach, each once, with their manifests, sorted by id |
| DistributionLicenses.DrainedMeansReachable | scripts/lib/distribution-licenses.ts:104-117 | when the queue is empty, visited means reachable by a chain of resolved dependencies |
| DistributionLicenses.VisitKeepsQueueInv | scripts/lib/distribution-licenses.ts:104-116 | visiting a package keeps every request either queued or served |
| DistributionLicenses.FreeDirectory | scripts/lib/distribution-licenses.ts:183-188 | the collision loop ends by pigeonhole, within one attempt more than names are taken, at the first free attempt |
| DistributionLicenses.AttemptsDiffer | scripts/lib/distribution-licenses.ts:184-188 | different collision numbers give different names |
| DistributionLicenses.NameDirectories | scripts/lib/distribution-licenses.ts:177-189 | directory names are pairwise distinct and each is the first free attempt of its package |
| DistributionLicenses.SanitizedPart | scripts/lib/distribution-licenses.ts:149-151 | in a directory name safe characters stay and each run of others becomes two underscores |
| DistributionLicenses.SafeIff | scripts/lib/distribution-licenses.ts:149-151 | the safe characters of a directory name are letters of either case, digits, dot, underscore and hyphen |
| DistributionLicenses.PackageDirectoryOf | scripts/lib/distribution-licenses.ts:149-151 | a package lands under its name and version, a scoped one under its scope as well, without the sign in front |
| DistributionLicenses.FlatNameOf | scripts/lib/distribution-licenses.ts:204 | a flattened file name has no separator, and a name without one is kept |
| DistributionLicenses.NoCopyOverwritesAnother | scripts/lib/distribution-licenses.ts:191-209 | no copy overwrites another exactly when no package has two license files of the same flattened name |
| DistributionLicenses.StageDistributionLicenses | scripts/lib/distribution-licenses.ts:153-215 | stages every license file of every package, from its root, in the package's own directory, and lists exactly the packages without any |
| WorkspaceScan.ScanStudioWorkspaceFiles | apps/server/src/studioOutputs.ts:196-300 | ends on every tree, records at most 4,000 files and 20,000 entries, only real files that count as output, and all of them unless a cap was reached |
| WorkspaceScan.ScanDirectory | apps/server/src/studioOutputs.ts:215-296 | one directory: every counted entry is dealt with, and some entry is counted unless it lists none |
| WorkspaceScan.NextBatch | apps/server/src/studioOutputs.ts:226-254 | a batch holds at most 64 entries, exactly the visible ones among those counted |
| WorkspaceScan.AbsorbBatch | apps/server/src/studioOutputs.ts:256-295 | files are recorded and unlinked directories queued, in order, until the file cap |
| WorkspaceScan.ScanFilterIff | apps/server/src/studioOutputs.ts:56-92 | which paths the scan lets through, compared with the path test |
| WorkspaceScan.PathTestIff | apps/server/src/studioOutputs.ts:78-92 | the path test by names: no part empty, hidden or node_modules; the first part no excluded file name if it is the only one, else no excluded directory name |
| WorkspaceScan.VisibleIff | apps/server/src/studioOutputs.ts:56-92 | the scan lets a path through exactly when no part of it is empty, hidden or node_modules and the first is none of the excluded directory and file names |
| WorkspaceScan.ExpectedIsVisible | apps/server/src/studioOutputs.ts:240-253 | no excluded or hidden path can be recorded at any depth |
| WorkspaceScan.ClosedIsComplete | apps/server/src/studioOutputs.ts:206-297 | with nothing pending, every file of the walkable tree is recorded |
| WorkspaceScan.DiffStudioWorkspaceScans | apps/server/src/studioOutputs.ts:306-318 | exactly the paths of the later scan that are new or changed, each once |
| WorkspaceScan.DifferenceIsWhatChanged | apps/server/src/studioOutputs.ts:196-318 | between two scans within the caps the difference lists exactly the files that are new or have other data |

## Left out

- The Effect layers, HTTP and WebSocket routes, Electron IPC, React state and the managers behind them: wiring of libraries that are not part of this model.
- File input and output, spawning, clocks and JSON appear as operations that may fail, events, parameters or finite maps.
- The patterns that find mentions, links, skills and agent aliases are parameters: any candidate ranges in start order.
- The resolution of import specifiers and the parsing of TypeScript; the detector is given the graph.
- Reading the bridge manifest and finding the source partition; the repair is given both partitions.
- Names of images: the date prefix and the extension of a job are given, and link and read failures are choices.
- UTF-8: frames and process output are bytes, the detector works on characters, so a character split between chunks is not modelled.
- UTF-16: strings are sequences of Unicode characters, and the order of strings is theirs, not that of code units.
- CDP requests, session attachment and notifications of the pipe server.
- Interruption of fibers and the gap between a dequeue and the egress tap of the stream library: the two are one step.
- Error messages, their formatting, and the recognition of a missing command on Windows.
- Trigger detection, clamping helpers and text replacement of the composer.
- Discovery of workspace packages and reading the three entry manifests, whose requests are given; declared licenses, repository links and the inventory text of the license stage; the normalisation of `.` and `..` in package names.
- ProfileRepair.Repair: with other processes on the target meanwhile, it states what each operation leaves, not how the target ends; `ConcurrentRepairs` follows several repairs of one group. A failing rollback is described by which entries it left, since the backup is removed with the staging directory.
- ImageCopies.CopiersConverge: copiers that failed to read a taken name are excepted, since the code takes an unreadable file for a different one.
- ComposerCursor.CursorLawsOnPrompt: asks that tokens store something, so that a cursor can stand in front of and behind them; an empty path or name still counts its sign.
- MacManifest.ParseAfterSerialize: the version is taken without outer white space and on one line, sizes as digits and extras with plain keys. Numbers are decimal literals by their printed text, without rounding or exponents.
- BrowserPipe.TabKeyInjective: asks for tab ids without a colon. Tab ids are generated identifiers and hold none; thread ids may hold colons.
- DistinguishedName.ReadsBack: white space other than what the parser drops, at the very beginning or end of the whole text, is excepted, since the text is trimmed first.
- ProcessRunner.ProcessRun.OnClose: a child may deliver any event any number of times here, although the real emitter sends some only once.
- WorkspaceScan.ScanStudioWorkspaceFiles: the tree does not change during one scan. At the depth cap a directory is still queued and links are followed, as in the code.
- DistributionLicenses.StageDistributionLicenses: distinct names may still collide on a file system that ignores case.
