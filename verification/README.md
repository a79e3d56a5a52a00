# Verified model of the bootstrap action

The bootstrap action provisions a Postman workspace from an API description: it uploads the
description as a specification, writes three collections that belong to it, links and tags them, and
keeps a small state file and content receipts so that a later run finds what an earlier one made.
This project models the parts of that program whose correctness does not depend on the network and
proves what they promise, for every input, every answer a server may give and every interleaving.

| module | what it models |
|---|---|
| `LanePool` | a pool of lanes over a list of items, as JavaScript workers between two awaits |
| `RemoteStore`, `Bootstrap` | the transaction: snapshot, write, verify, persist, and compensate on failure |
| `SpecReconcile`, `SpecRecovery`, `SpecPlan` | the file set of a multi-file specification: plan, order, crash, retry, snapshot |
| `Materialise` | a local tree replayed one create at a time against a server that may lose its answer |
| `Settle` | polling for collection relations, draining a cursor, retrying a locked link |
| `Receipt`, `ConvergentRoot`, `RootIdentity`, `ModelIdentity` | receipts in description texts, the marker scan over the same texts, and the root identity derived from it |
| `Schema`, `CassetteShape`, `ShapeDiff` | shapes of recorded bodies, their signatures and their comparison |
| `JsonInclusion` | whether a server's answer contains what was requested |
| `Secrets`, `Placeholders` | masking of secrets, numbering of placeholders |
| `SpecRerun` | summary normalization and the branch marker: when a rerun uploads nothing |
| `CollectionWalk`, `Resources`, `BundlePath` | the walk over collection directories, the state file, path resolution |
| `Ordering`, `Sequences`, `Text`, `Json`, `Wrappers` | sorting, rearranging, searching in texts, JSON trees, `Option` and `Result` |

A remote call is a step of a class with maps: it succeeds, fails without effect, or fails after it
took effect. The class counts the calls that fail, so a method can promise that it fails only for a reason. A loop of the source is a method proved against a function, and the promises are
lemmas about that function. SHA-256, `trim`, JSON and YAML parsing and the collation order are
parameters; each lemma states which facts about them it uses, and where these are more than a line a
concrete host shows that they can be met (`SampleReads`, `SampleHasFacts`). Strings are sequences of characters.

Several promises do not hold on all inputs. For those there is a lemma with an input that shows it
and a lemma with the exact condition under which they do hold: two root updates in one plan
(`OrderedOpsAreThePlan`), renaming a file only in case (`PrefixesCollideExactly`), two siblings with
one type and title (`FaithfulExactly`), a message with children (`KeptExactly`), a foreign receipt
that repeats a key (`ReplacingKeepsTheRootExactly`), a line break in front of a receipt
(`LineBreakIsLostExactly`), secrets that overlap the replacement (`MaskedExactly`), inclusion through
wrappers (`ChainsExactly`), drift under inherited names (`NoDifferenceIsOverlooked`), a
state file in both shapes (`WriteThenRead`), a field called `value` (`ValueKeyKeepsExactly`), more
than a thousand ids of one category (`NumbersDifferExactly`), and a bundle path with a fragment sign
or a colon (`RelativePathResolvesExactly`).

`dafny verify dfyconfig.toml` checks the whole project.

## Model

| member | source | states |
|---|---|---|
| Bootstrap.BootstrapRun.Run | src/index.ts:3076-4502 | The whole transaction. Two roles with one collection are refused. On a clean end the uploaded specification is stored; collections were generated unless a specification was there before whose content as found (single file: normalized) is the upload, collections are then as found and the outputs are the known ids; generated collections have the desired digest, and a refresh keeps the id of every role that had one. An error without a rollback code leaves every collection that a refresh may write as the run found it, no imported collection unless a deletion failed, and the specifications as found, restored, or, where nothing can tell, as the upload left them; an error carries a rollback code exactly when a rollback call failed. And a run fails only for a reason: on a run on which no call fails, an error means that two roles or two outputs share an id, that the specification or a collection to refresh is not there, that a capability is missing, or that what the writes left is not what was wanted. Tracked state is as found or, once every later stage has run and the write was attempted, holds the ids of the run; a non-canonical run never changes it. |
| Bootstrap.BootstrapRun.Admit | src/index.ts:2872-3068 | Before anything is sent: the specification is fetched for a later restore, and a run whose roles share an id is refused. |
| Bootstrap.BootstrapRun.MaySkip | src/index.ts:3440-3541 | Collections are left as they are only for an unchanged specification, never on a refresh with root content, always without root content; a version run gives the skip up for a role whose receipt differs, and for no other reason. |
| Bootstrap.BootstrapRun.MakeCollections | src/index.ts:3528-4120 | Either nothing is generated, for an unchanged specification, and the outputs are the known ids, or every output is delivered. |
| Bootstrap.BootstrapRun.StoreSpec | src/index.ts:3254-3345 | In terms of what the run found: the upload is stored, and the content counts as unchanged exactly when a specification was there that holds it. |
| Bootstrap.BootstrapRun.PrepareCollections | src/index.ts:3600-3825 | When converting or taking snapshots fails nothing has been written. |
| Bootstrap.BootstrapRun.Compensate | src/index.ts:4474-4502 | The outer handler keeps the original error unless a rollback fails; without a rollback code nothing attempted is left unrestored and the specification is deleted, restored or untouched as its provenance demands. |
| Bootstrap.BootstrapRun.Undo | src/index.ts:4474-4502 | The same in terms of what the run found, for every state in which the stages before can stop. |
| Bootstrap.BootstrapRun.FailOwned | src/index.ts:3232-3252 | The inner handler names the stage or, exactly when restoring failed, the rollback; the collections stay recoverable for the second handler. |
| Bootstrap.BootstrapRun.RestoreAttemptedDeepUpdates | src/index.ts:3183-3203 | It fails only if a call fails or none can be made. Success means that no attempted write is left; failure keeps the whole set of attempted ids for the next handler and keeps every collection recoverable. |
| Bootstrap.BootstrapRun.RestoreAll | src/index.ts:3183-3203 | Every attempted collection is tried, whatever becomes of the others; each that is not reported is as the run found it, and a failure needs a failed call. |
| Bootstrap.BootstrapRun.CompensateOwnedImports | src/index.ts:3205-3230 | Deleting the run's imports touches no collection that a refresh may write, leaves none of them unless a deletion is reported as failed, and happens once: a second call changes nothing. |
| Bootstrap.BootstrapRun.RestorePreviousSpec | src/index.ts:3082-3168 | At most three tries, all three before it fails, a further one only after one that failed; success deletes a specification the run created, or puts the previous content back, and touches nothing else. |
| Bootstrap.BootstrapRun.SyncSpec | src/index.ts:3254-3345 | An update that ends well has stored the upload, or found it stored and left it; whatever the answer, it changes the one specification only and keeps a previous content to restore. An upload is recorded with its answer, and the run goes on exactly when the answer is confirmed. |
| Bootstrap.BootstrapRun.SnapshotCollections | src/index.ts:3740-3767 | A complete run of two lanes, failing only if a call fails or a collection is not there; a clean join has a snapshot of exactly the collections that will be written in place, each as the run found it. |
| Bootstrap.BootstrapRun.BeginWrite | src/index.ts:3827-3856 | The id of an in-place write is registered before the call, and no id is registered without one; a role whose snapshot already has the desired digest is not written. |
| Bootstrap.BootstrapRun.FinishWrite | src/index.ts:3838-3935 | Any answer changes at most the role's own collection, an import none of the reusable ones; every imported root is remembered; a call that does not fail leaves the payload stored; a digest that is recorded as proof is the desired one and is that of the stored collection. |
| Bootstrap.BootstrapRun.Claim | src/index.ts:3952-3962 | A lane that takes the next role keeps every earlier proof and every call in flight within the registered ids. |
| Bootstrap.BootstrapRun.Settle | src/index.ts:3958-3964 | An answer arriving in any order moves its role from the calls to the results and keeps the proofs of the other roles. |
| Bootstrap.BootstrapRun.WriteRoles | src/index.ts:3936-3968 | A complete run of the lanes: fresh imports all at once, otherwise two lanes. Every interleaving keeps the collections recoverable, and a join without failure has a result for every role. |
| Bootstrap.BootstrapRun.RecordWrites | src/index.ts:3984-3993 | Every answered write publishes its id; the ledger holds every imported root, and never a reusable collection. |
| Bootstrap.BootstrapRun.VerifyRole | src/index.ts:4050-4098 | A role that is stored as wanted and can be read passes unless a call fails, and a role passes only when the digest observed is the desired one and the stored collection has it. |
| Bootstrap.BootstrapRun.VerifyRoles | src/index.ts:4040-4102 | A complete run of two lanes; a clean join means observed digest equals desired digest for every role. |
| Bootstrap.BootstrapRun.WriteAll | src/index.ts:3936-4102 | Writes, record and verification: when no stage fails every output is delivered; otherwise it is the writing or, once all writes were answered, the verification. |
| Bootstrap.BootstrapRun.WriteAndVerify | src/index.ts:3936-4102 | Writes and verification together: no failure means every output is delivered and every role kept its collection or got one the run imported; a failure needs a failed call, a missing capability or a wrong collection, and the error carries the rollback code exactly when restoring failed. |
| Bootstrap.BootstrapRun.FinishExternally | src/index.ts:4217-4461 | Authored collections, links, tags and the manifest run in this order and may stop at any of them, which names the error; they leave the delivered collections alone. |
| Bootstrap.BootstrapRun.Persist | src/index.ts:4462-4473 | Unless the write fails, the ids reach the tracked state here; a failing write leaves the old state or the whole new one, and a non-canonical run writes none (src/index.ts:2617-2628). |
| Bootstrap.DeliveredByWrites | src/index.ts:3983-4102 | Outputs that name what verification proved deliver every role. |
| Bootstrap.ProvedNotInFlight | src/index.ts:3827-3968 | No call in flight can still change a collection that is already proved. |
| Bootstrap.ReuseIdsExact | src/index.ts:3733-3740 | The ids to snapshot are exactly those of the roles that a refresh writes in place. |
| Bootstrap.IdsKeptByWrites | src/index.ts:3827-3993 | A role that a refresh writes in place keeps its id; any other role gets a collection the run imported. |
| Bootstrap.ReusableExactly | src/index.ts:3733-3740 | What a refresh may write are the collections its roles had. |
| Bootstrap.ClashesExactly | src/index.ts:3048-3068 | What counts as a clash of roles or of outputs: two different places with the same value. |
| Bootstrap.RecordedExactly | src/index.ts:2617-2628 | A canonical run records each output and the specification, and leaves every other key. |
| Bootstrap.RollbackContentExactly | src/index.ts:3082-3168 | A single file is compared and restored in its normalized form, a file set as it was stored. |
| Bootstrap.AfterFailureExactly | src/index.ts:3290-3345 | After a failure an upload is gone exactly if it made a new specification, was confirmed, and can be deleted; an upload is confirmed exactly if it is a single file or was verified. |
| Bootstrap.KnownIdsExactly | src/index.ts:3528-3573 | A skipped generation publishes the id of each role that has one and nothing else. |
| Bootstrap.DeliveredExactly | src/index.ts:4040-4102 | Delivered means that the collection each output names is stored with the digest of the role's payload. |
| LanePool.ClaimDiscipline | src/index.ts:3745-3767 | In every interleaving items are claimed in order, each at most once, none after a failure. |
| LanePool.InFlightBounded | src/index.ts:3944-3968 | At most as many calls are in flight as there are lanes. |
| LanePool.JoinSettlesEverything | src/index.ts:3944-3968 | At the join nothing is in flight, every claimed item is settled, and without a failure every item has succeeded. |
| LanePool.StepDecreases | src/index.ts:4050-4102 | Every step brings the join nearer, so no schedule runs on for ever. |
| LanePool.BusyLane | src/index.ts:3950-3966 | A call in flight belongs to one lane and one unsettled item. |
| LanePool.NextIsNew | src/index.ts:3950-3955 | The item a lane takes next has never been claimed. |
| SpecReconcile.AssertNoCloudPathCollisions | src/lib/postman/spec-file-reconcile.ts:471-487 | The loop finds the first invalid or colliding path of the listing, with the error of that file. |
| SpecReconcile.CollisionExact | src/lib/postman/spec-file-reconcile.ts:471-487 | A listing passes if and only if every path is valid and all case-folded paths differ. |
| SpecReconcile.PlanSpecFileReconcile | src/lib/postman/spec-file-reconcile.ts:524-587 | The differ's loops compute the plan function, errors in the order in which the loops meet them. |
| SpecReconcile.UpsertsFailExactly | src/lib/postman/spec-file-reconcile.ts:524-587 | Upserts fail if and only if some file has a problem: the root is not stored, its type differs, or its content is missing; the error is that of the first such file. |
| SpecReconcile.OrderPerFileReconcileOps | src/lib/postman/spec-file-reconcile.ts:278-325 | The scheduler's loop computes the sorted non-root upserts, then the last root update, then the sorted deletes. |
| SpecReconcile.OrderedOpsAreThePlan | src/lib/postman/spec-file-reconcile.ts:278-325 | The ordered operations are the plan's operations, with multiplicity, if and only if the plan updates at most one root. |
| SpecRecovery.ExecEffect | src/lib/postman/spec-file-reconcile.ts:278-325 | What any run of operations does to each file, stated file by file. |
| SpecRecovery.EveryPrefixIsUsable | src/lib/postman/spec-file-reconcile.ts:278-325 | After every prefix the root is there; it has changed only if all of the target's dependencies are final; something has been deleted only if all of the target is there. |
| SpecRecovery.PrefixesCollideExactly | src/lib/postman/spec-file-reconcile.ts:320-325 | All prefix states are free of case collisions if and only if no new path folds onto a stored path that is to be deleted. |
| SpecRecovery.RunMeetsTarget | src/lib/postman/spec-file-reconcile.ts:278-325 | Running all operations yields exactly the target's path, role and content map. |
| SpecPlan.PlanFailsExactly | src/lib/postman/spec-file-reconcile.ts:524-587 | Planning fails if and only if the stored paths collide, the target's root is not stored, or the stored root is not in the target; without a collision the error is the root-path one. |
| SpecPlan.PlanIsFaithful | src/lib/postman/spec-file-reconcile.ts:278-587 | The scheduled operations of a plan do what is missing and nothing else. |
| SpecPlan.ReconcileMeetsTarget | src/lib/postman/spec-file-reconcile.ts:278-587 | From plan to result: planning succeeds, ordering succeeds, the sorted operations are exactly the plan's, and running them meets the target. |
| SpecPlan.CrashIsUsable | src/lib/postman/spec-file-reconcile.ts:278-587 | The same from the differ's input: a crash after any number of operations leaves a usable set. |
| SpecPlan.ReplanSucceedsExactly | src/lib/postman/spec-file-reconcile.ts:433-599 | After every crash point the retry plans, for any goal with the same root, if and only if no new path folds onto a stored path that is to be deleted. |
| SpecPlan.RetryMeetsGoal | src/lib/postman/spec-file-reconcile.ts:433-599 | A retry that plans reaches its goal, be it the target or the snapshot from before. |
| SpecPlan.EmptyPlanExactlyAtTarget | src/lib/postman/spec-file-reconcile.ts:524-599 | A plan has no mutations if and only if the stored set already is the target. |
| SpecPlan.RootNeverMoves | src/lib/postman/spec-file-reconcile.ts:601-610 | No sequence of operations reaches a target with another root path, so the guard refuses only what cannot be done. |
| SpecPlan.SnapshotIsRestorable | src/lib/postman/spec-file-reconcile.ts:389-469 | A snapshot of the stored set is a well-formed target, and the stored set meets it. |
| SpecPlan.SnapshotIsCanonical | src/lib/postman/spec-file-reconcile.ts:433-450 | A snapshot does not depend on the order of the listing, and taking one of a snapshot changes nothing. |
| SpecPlan.ListingCollidesExactly | src/lib/postman/spec-file-reconcile.ts:471-487 | The collision check on a listing says whether the stored set is ambiguous. |
| SpecPlan.CaseOnlyRename | src/lib/postman/spec-file-reconcile.ts:320-325 | Renaming `P` to `p`: stored set and target are both in order, the state between is not. |
| SpecPlan.TwoRootUpdatesLoseOne | src/lib/postman/spec-file-reconcile.ts:300-325 | Two root updates in one plan: the scheduler keeps the second only. |
| Materialise.CreateIsExact | src/lib/postman/create-reconciliation.ts:71-86 | A create that returns has made its own item and nothing else, whatever was lost, if and only if it is not the case that exactly one earlier item looks the same. |
| Materialise.EcServer.Post | src/lib/postman/postman-ec-client.ts:351-380 | A POST is accepted, accepted without an id, refused, or lost after or before it took effect. |
| Materialise.EcClient.CreateItem | src/lib/postman/postman-ec-client.ts:351-408 | One POST, and after a lost answer one listing: adopt the one match, else report; the outcome and the log are those of the create function. |
| Materialise.EcClient.CreateMessages | src/lib/postman/postman-ec-client.ts:602-610 | The messages of a request are created beneath it, without their own children and without being counted. |
| Materialise.EcClient.CreateChildren | src/lib/postman/postman-ec-client.ts:567-612 | The recursive loop leaves the log, the number of calls and the error of the replay function, and adds its leaves to the counter. |
| Materialise.EcClient.PopulateFromTree | src/lib/postman/postman-ec-client.ts:567-619 | The whole replay, with the leaf count it returns. |
| Materialise.ReplayIsExact | src/lib/postman/postman-ec-client.ts:567-619 | With siblings that differ in type and title, for every script of lost answers: a replay that returns has appended exactly the tree's items in order and returned its number of request leaves; one that fails has appended a prefix of them. |
| Materialise.ReadsBack | src/lib/postman/postman-ec-client.ts:567-619 | Reading the appended items back by their parents gives the tree again: same order, same parents, nothing twice. |
| Materialise.KeptExactly | src/lib/postman/postman-ec-client.ts:602-610 | The tree is kept whole, non-object entries aside, if and only if no message has children. |
| Materialise.ShortRun | src/lib/postman/create-reconciliation.ts:71-86 | Where two siblings have one type and title there is a single lost answer with which the replay returns with an item missing. |
| Materialise.FaithfulExactly | src/lib/postman/postman-ec-client.ts:567-619 | Of a tree without misplaced children: replay returns the whole tree and its number of requests for every script of answers if and only if siblings differ in type and title at every level. |
| Materialise.MalformedNeverReturns | src/lib/postman/postman-ec-client.ts:567-600 | A tree with children where none may be never replays to the end. |
| Materialise.OffendsExactly | src/lib/postman/postman-ec-client.ts:32-590 | A tree can be replayed if and only if, at every level that is replayed, only folders, raw and Socket.IO requests have children. |
| Materialise.KeptAs | src/lib/postman/postman-ec-client.ts:567-619 | What is kept of a tree, kind by kind: folders with their trees, both request kinds with their messages, which have nothing beneath, everything else alone; the count is that of the entries that are no folders. |
| Materialise.AcceptedReplay | src/lib/postman/postman-ec-client.ts:567-619 | With every create accepted a replay fails if and only if a node that may have no children has some; otherwise the log reads back as the tree, the messages of raw and Socket.IO requests beneath them, and the count is that of the requests. |
| Receipt.RenderRoundTrip | src/lib/postman/collection-semantic-receipt.ts:15-103 | For every text that renders: the rendered text strips as the text does, parses to the digest rendered, and rendering again replaces the receipt. |
| Receipt.RenderedReads | src/lib/postman/collection-semantic-receipt.ts:31-103 | A printed receipt is undone by parsing and by stripping. |
| Receipt.PlainTextReturns | src/lib/postman/collection-semantic-receipt.ts:76-103 | A text without a receipt comes back unchanged, a missing description as the empty text. |
| Receipt.KeyIsNeverOverlooked | src/lib/postman/collection-semantic-receipt.ts:31-41 | "No receipt" is the answer if and only if the text does not contain the reserved key. |
| Receipt.SuffixShape | src/lib/postman/collection-semantic-receipt.ts:15-28 | The three texts in which a receipt is found; in one of them the line break is lost. |
| Receipt.FinalLineExactly | src/lib/postman/collection-semantic-receipt.ts:15-28 | A receipt is refused if and only if a line feed or a carriage return stands behind it. |
| Receipt.DigestSpelled | src/lib/postman/collection-semantic-receipt.ts:31-75 | A digest is 64 digits and small letters a to f. |
| Receipt.ReceiptObjectExactly | src/lib/postman/collection-semantic-receipt.ts:31-75 | A receipt is an object of exactly three members: version 1, the algorithm sha256, and a digest; nothing else is taken for one. |
| Receipt.LineBreakIsLostExactly | src/lib/postman/collection-semantic-receipt.ts:15-28 | A text with a receipt is its base, a line break and the receipt if and only if that line break is not its first character. |
| Receipt.LeadingBreakIsLost | src/lib/postman/collection-semantic-receipt.ts:15-28 | A receipt behind a leading line break does not come back byte for byte, contrary to the comment on line 75. |
| ConvergentRoot.LogicalAssetMarker | src/lib/postman/convergent-collection-root.ts:11-32 | The brace-counting loop finds the closing brace of the marker's object and parses up to it. |
| ConvergentRoot.MarkerOfExactly | src/lib/postman/convergent-collection-root.ts:22-32 | A parsed value is a marker if and only if it is an object whose `repo` and `role` are there and neither null, false, zero nor empty. |
| ConvergentRoot.RenderKeepsMarker | src/lib/postman/convergent-collection-root.ts:11-32 | Attaching a receipt never changes the marker found, be it present, absent, without braces or unbalanced. |
| ConvergentRoot.StripKeepsMarkerExactly | src/lib/postman/convergent-collection-root.ts:11-32 | For any text with a receipt, stripping keeps the marker if and only if the base has a marker or the receipt's own text has none. |
| ConvergentRoot.ForgedReceiptMovesRoot | src/lib/postman/convergent-collection-root.ts:11-32 | With a parser that keeps the last of two equal keys: a text that parses as a receipt and strips to nothing, and yet has a marker. |
| ConvergentRoot.SampleHasFacts | src/lib/postman/convergent-collection-root.ts:11-32 | A parser that has all the facts which the lemmas on receipts and roots require, the forged receipt included. |
| RootIdentity.PreimageIsInjective | src/lib/postman/convergent-collection-root.ts:61-68 | With NUL-free workspace and name, equal hash inputs have equal workspace, name and marker. |
| RootIdentity.HashInputExactly | src/lib/postman/convergent-collection-root.ts:48-68 | When printing is injective: the same is hashed for two descriptions if and only if workspace and name agree and either neither has a marker or both agree on repository, raw branch, sanitized branch, role and head repository, an absent or null one counting as empty. |
| RootIdentity.HashInputSpelled | src/lib/postman/convergent-collection-root.ts:52-68 | What is hashed, place by place: the domain, the workspace, the name and the marker's five parts or the word for none, a zero between each two. |
| RootIdentity.IdentitySpells | src/lib/postman/convergent-collection-root.ts:61-76 | There is no root exactly for an empty workspace or name; otherwise the groups spell the sixteen stamped bytes of the hash, digit by digit and in order. |
| RootIdentity.Stamp | src/lib/postman/convergent-collection-root.ts:73-74 | The in-place update of two bytes. |
| RootIdentity.StampSetsSixBits | src/lib/postman/convergent-collection-root.ts:73-74 | Version 5 and the variant of section 4.1 of RFC 9562 are set, every other bit is the hash's, and stamping again changes nothing. |
| RootIdentity.ConvergentCollectionRootIdentity | src/lib/postman/convergent-collection-root.ts:41-77 | The identity computed on the array is that of the specification, or none for an empty workspace or name. |
| RootIdentity.ReceiptsKeepTheRoot | src/lib/postman/convergent-collection-root.ts:41-77 | A rendered description has the root of the stripped one, and of the description itself if that had no receipt. |
| RootIdentity.ReplacingKeepsTheRootExactly | src/lib/postman/convergent-collection-root.ts:41-77 | Rendering over any receipt keeps what is hashed, and with it the root, if and only if a marker stands in front of the receipt or the receipt spells none. |
| RootIdentity.IdentityShape | src/lib/postman/convergent-collection-root.ts:70-76 | A root is a bare lower-case UUID with version 5 and an RFC variant, and is its own model identity. |
| RootIdentity.TextIsInjective | src/lib/postman/convergent-collection-root.ts:75-76 | Different stamped bytes are written differently. |
| ModelIdentity.NormalizeIsIdempotent | src/lib/postman/collection-model-identity.ts:11-15 | Normalizing an id twice is normalizing it once. |
| ModelIdentity.ConflatesExactly | src/lib/postman/collection-model-identity.ts:1-15 | Two ids are taken for one another if and only if they are the same trimmed text or name the same UUID. |
| ModelIdentity.PublicIsBare | src/lib/postman/collection-model-identity.ts:11-15 | A public id with a numeric owner is the collection with its bare UUID. |
| ModelIdentity.BareUuidSpelled | src/lib/postman/collection-model-identity.ts:1-2 | A bare id is five groups of hexadecimal digits of either case, 8, 4, 4, 4 and 12, with dashes between them. |
| ModelIdentity.PublicUidSpelled | src/lib/postman/collection-model-identity.ts:3-4 | A public id is a number, a dash and a bare id. |
| Settle.PrepareExpected | src/lib/postman/internal-integration-adapter.ts:643-660 | The expected ids are refused if none is left or if two have one identity. |
| Settle.ExpectedIsTheSet | src/lib/postman/internal-integration-adapter.ts:643-643 | They are the trimmed, non-empty ids, each once. |
| Settle.CandidatesExactly | src/lib/postman/internal-integration-adapter.ts:705-713 | The filter finds several rows, or one, if and only if several indexes of the list, or exactly one, carry the identity; the one it finds is the row at that index. |
| Settle.IndexRows | src/lib/postman/internal-integration-adapter.ts:703-716 | A collision is reported if and only if two different indexes of the list carry the identity of one expected id; otherwise each id is mapped to the row of its one index, and an id without such an index to nothing. |
| Settle.JudgeList | src/lib/postman/internal-integration-adapter.ts:703-741 | A collision if and only if two indexes carry the identity of one expected id; settled if and only if each expected id has exactly one such index and its row is in sync and complete, and then the result holds these rows in the expected order; any other error is that of the first id whose one row is wrong. |
| Settle.SettleRelations | src/lib/postman/internal-integration-adapter.ts:690-747 | For every sequence of lists: success is at the first of at most 12 attempts whose list settles, each earlier list being read, free of errors and merely short of rows, and it holds the rows of that list; failure means there is no such attempt, and says which list failed and why, time having run out only at the twelfth. |
| Settle.DrainRelations | src/lib/postman/internal-integration-adapter.ts:537-561 | Draining succeeds if and only if the pages form a chain of at most 200 with distinct cursors, and returns their rows in order. |
| Settle.LinkCollections | src/lib/postman/internal-integration-adapter.ts:477-529 | A link succeeds if and only if at most 6 locked answers precede an accepted one; the number of retries is returned. |
| Schema.SignatureIsInjective | scripts/cassette-shape.ts:67-82 | With property names free of delimiters, equal signatures are of equal schemas. |
| Schema.NamesThatCollide | scripts/cassette-shape.ts:67-78 | Names with a colon or a brace for which different schemas have one signature. |
| CassetteShape.ShapeDecides | scripts/cassette-shape.ts:44-65 | Two values have one schema if and only if they have the same shape, defined on the values without schemas. |
| CassetteShape.OrderAndRepetitionDoNotShow | scripts/cassette-shape.ts:44-65 | Order and repetition of array elements and order of members do not change a schema. |
| CassetteShape.ElementSchemasAre | scripts/cassette-shape.ts:48-58 | An array's element schemas are those of its elements, each once. |
| ShapeDiff.SchemaIsNormal | scripts/cassette-shape.ts:44-65 | Every schema computed from a body is sorted and free of duplicates. |
| ShapeDiff.NoDifferenceExactly | scripts/cassette-shape.ts:109-144 | On normal schemas no difference is reported if and only if they are equal. |
| ShapeDiff.NoDifferenceIsOverlooked | scripts/cassette-shape.ts:109-144 | On any schemas with clear names, inherited names included, no difference is reported if and only if kinds are equal, arrays are equal, every baseline key is there and overlooked in turn, and every other key is inherited by all objects. |
| ShapeDiff.FirstUnknownExactly | scripts/cassette-shape.ts:120-135 | The key found is the first that the other object neither has nor inherits; none is found if there is no such key. |
| ShapeDiff.DifferenceExactly | scripts/cassette-shape.ts:109-144 | A removed key is named before an added one, the first of each, and either before anything deeper; lists differ in their elements, values of different kinds in their kind. |
| ShapeDiff.AddedInheritedKeyIsMissed | scripts/cassette-shape.ts:120-135 | An added key that every object inherits is not seen. |
| ShapeDiff.GroupByKey | scripts/cassette-shape.ts:158-194 | The grouping loop: the keys in order of appearance, each with its interactions. |
| ShapeDiff.DiffCassetteShapes | scripts/cassette-shape.ts:155-230 | The loops over counts, new keys and pairs push exactly the findings of the specification, in order. |
| ShapeDiff.NoFindingsExactly | scripts/cassette-shape.ts:155-230 | There is no finding if and only if the two recordings are equal as multisets of key, status and schema. |
| ShapeDiff.SilentExactly | scripts/cassette-shape.ts:155-230 | On any recordings with clear names there is no finding if and only if each key has equally many interactions whose sorted pairs agree in status and have nothing to report. |
| JsonInclusion.IncludesItself | src/index.ts:2081-2148 | Every value includes itself. |
| JsonInclusion.WrappingKeeps | src/index.ts:2076-2140 | Wrapping an answer as `{ value: answer, … }` keeps what it includes and, for a request that is no object, adds nothing. |
| JsonInclusion.AddedKeysKeep | src/index.ts:2076-2148 | Adding any keys but `value` to objects at any depth of the answer keeps what it includes. |
| JsonInclusion.AskingLessKeeps | src/index.ts:2081-2148 | Leaving out requested keys at any depth keeps the inclusion. |
| JsonInclusion.ValueKeyKeepsExactly | src/index.ts:2118-2148 | An including answer survives every added field `value` if and only if it includes the request key by key. |
| JsonInclusion.ObjectIncludes | src/index.ts:2118-2148 | An object includes a request directly or through its envelope, and in no other way. |
| JsonInclusion.PrimitivesExactly | src/index.ts:2062-2074 | A text includes a boolean if and only if it spells it, trimmed and in lower case, and a number if and only if its trimmed form is not empty and reads as it; other primitives include one another only when equal. |
| JsonInclusion.ListsExactly | src/index.ts:2101-2108 | A list includes a list of its length element by element, and nothing else. |
| JsonInclusion.EnvelopesExactly | src/index.ts:2084-2116 | An object includes a primitive or a list through `value` if it has that key, and otherwise a primitive through `enabled` if that is neither a number nor absent. |
| JsonInclusion.ObjectsExactly | src/index.ts:2118-2148 | An object is included key by key, or through `value`, or without that key through `enabled`, and by objects only. |
| JsonInclusion.NotTransitive | src/index.ts:2081-2148 | Three values that show that inclusion is not transitive. |
| JsonInclusion.ChainsExactly | src/index.ts:2081-2148 | Inclusion is transitive through a value and all its parts, for every answer and request, if and only if the value is straight: at every depth `value` leads to no list, and what an opened `enabled` holds is found beside it as well. |
| JsonInclusion.StraightChains | src/index.ts:2081-2148 | Whatever includes a straight value includes all that the value includes. |
| JsonInclusion.NotStraightBreaks | src/index.ts:2081-2148 | For every object that is not straight itself there are an answer and a request that break the chain. |
| JsonInclusion.WithoutWrappersIsStraight | src/index.ts:2081-2148 | A value without keys `value` and `enabled` is straight, so inclusion is transitive through it. |
| Secrets.AppendSecretValues | src/lib/secrets.ts:26-46 | The recursive accumulator appends the secrets of a value depth first. |
| Secrets.NormalizeKeeps | src/lib/secrets.ts:48-52 | Normalizing keeps exactly the secrets, each once, longer ones first. |
| Secrets.RedactSecrets | src/lib/secrets.ts:54-70 | The loop over the secrets computes the fold of replacements. |
| Secrets.ReplaceAddsNothing | src/lib/secrets.ts:64-69 | Replacing one secret brings no other about that stands apart from the replacement, and removes its own. |
| Secrets.FoldRemoves | src/lib/secrets.ts:54-70 | After the whole fold a secret that stands apart from the replacement is gone, whatever the other secrets are. |
| Secrets.RedactionRemoves | src/lib/secrets.ts:54-70 | No secret without a bracket that is no part of `REDACTED` is left in redacted text. |
| Secrets.RedactionIsIdempotent | src/lib/secrets.ts:54-70 | Redacting again changes nothing when every secret stands apart from the replacement. |
| Secrets.RedactedApart | src/lib/secrets.ts:54-58 | A secret with no bracket that is no part of the word REDACTED stands apart from the usual replacement. |
| Secrets.MaskedExactly | src/lib/secrets.ts:54-70 | A secret is kept out of every text, whatever is masked with it, if and only if it stands apart from the replacement: neither holds the other and no end of one is the start of the other. |
| Secrets.LiesBeside | src/lib/secrets.ts:64-69 | Then every occurrence lies wholly before or wholly after a replacement. |
| Secrets.MutableSecretMasker.constructor | src/lib/secrets.ts:89-93 | A masker starts with exactly the secrets of the value it is given. |
| Secrets.MutableSecretMasker.Add | src/lib/secrets.ts:96-101 | Adding keeps all earlier secrets and adds the trimmed value, once, unless it is empty. |
| Secrets.MutableSecretMasker.Mask | src/lib/secrets.ts:89-102 | After any sequence of adds, masking removes every secret so far that stands apart from the replacement, and leaves a text without secrets as it is. |
| Secrets.PartOfTheWordStays | src/lib/secrets.ts:54-70 | A secret that is part of the word REDACTED stays. |
| Secrets.BracketIsBroughtAbout | src/lib/secrets.ts:54-70 | A secret with a bracket can be brought about by masking another. |
| SpecRerun.NormalizeSpecDocument | src/index.ts:1573-1638 | The parse, loop and print computes the normalization function. |
| SpecRerun.NormalizeOperations | src/index.ts:1602-1635 | The loop rewrites each operation's summary and reports a change if and only if an operation changed. |
| SpecRerun.NormalizedIsAcceptable | src/index.ts:1609-1634 | Afterwards the trimmed summary has 1 to 200 characters, nothing else of the operation has changed, and an acceptable operation is unchanged. |
| SpecRerun.SummaryExactly | src/index.ts:1602-1634 | The summary is the operation's own, else its id, both trimmed and skipped when blank, else its method and path; beyond 200 characters it is cut to 199 and an ellipsis. |
| SpecRerun.TrimExactly | src/index.ts:1605-1611 | Trimming takes blanks off both ends and nothing else. |
| SpecRerun.NormalizeIsStable | src/index.ts:1573-1638 | For every text: one pass is a fixed point, and then every operation is acceptable. |
| SpecRerun.SampleReads | src/index.ts:922-1638 | A host that reads back what a run prints, and a text of it that normalizing changes. |
| SpecRerun.EmbedStores | src/index.ts:922-973 | A stamped text reads back the marker of this run, with the time of creation of a marker with the same repository, branch and role if there was one, and else the time of this run. |
| SpecRerun.StampReads | src/index.ts:942-957 | A marker that a run builds reads back from the text it is printed into. |
| SpecRerun.StampExactly | src/index.ts:922-957 | Who is stamped, what each part of the marker is, and in which style it is printed. |
| SpecRerun.UnchangedRerun | src/index.ts:922-973 | A rerun on the same content, branch and head reproduces the stored text whatever the clock says. |
| SpecRerun.UploadIsSkippedExactly | src/index.ts:922-1004 | A stored text is reproduced at any time if and only if its document, style and marker are those the run would write with the stored times. |
| SpecRerun.CreatedAtIsKept | src/index.ts:922-1004 | Through any list of refreshes of a branch generation the time of creation stays. |
| SpecRerun.SecondRunUploadsNothing | src/index.ts:3306-3315 | The second run of an unchanged source stamps exactly the text it reads back and normalizes, so the digest skip fires. |
| SpecRerun.StampedIsNormal | src/index.ts:2889-2895 | Stamping a normalized text leaves nothing for normalization to change. |
| CollectionWalk.Walker.Collect | src/lib/postman/additional-collections.ts:413-457 | One call: each directory expanded at most once, what it visited is closed under entries and reachable, its files are added with multiplicity, and it fails only for a path that leads outside. |
| CollectionWalk.Walker.ReadEntries | src/lib/postman/additional-collections.ts:424-456 | The loop over a directory's entries. |
| CollectionWalk.CollectSupportedCollectionPaths | src/lib/postman/additional-collections.ts:413-457 | On every finite directory graph, cycles included, the walk ends; it succeeds if and only if no reachable entry leads outside the workspace; it reads exactly the directories reachable without entering a skipped one, each once, and returns exactly their supported files. |
| Resources.WriteThenRead | src/lib/postman/additional-collections.ts:163-235 | Written state is version 2 without `cloudResources`, reads back, and keeps the lookup of a path if and only if the state had one shape, or both agree on the path, or the canonical one does not have it. |
| Resources.ReadExactly | src/lib/postman/additional-collections.ts:163-202 | A missing or empty file is a first run; only a mapping without a version or of version 1 or 2 is read; transient tables stand in for canonical ones only where there are none. |
| Resources.LookupExactly | src/lib/postman/additional-collections.ts:210-235 | The id found for a path is that of the first of four tables that has the path. |
| Resources.WriteExactly | src/lib/postman/additional-collections.ts:204-215 | What is written member by member. |
| Resources.AnnounceExactly | src/lib/postman/additional-collections.ts:718-721 | Recording an id changes its one entry and nothing else of the state. |
| Resources.MixedShapesLoseAnId | src/lib/postman/additional-collections.ts:204-235 | A state with both shapes for which one write loses an id. |
| Resources.Host.Persist | src/lib/postman/additional-collections.ts:718-721 | A root that is announced is in the file at once. |
| Resources.Host.Load | src/lib/postman/additional-collections.ts:163-202 | A run starts from what the file says. |
| Resources.Host.CreateAdditionalCollection | src/lib/postman/additional-collections.ts:702-734 | Stopping or failing anywhere, a create has announced and stored its root or has left state and file alone. |
| Resources.Host.SyncFile | src/lib/postman/additional-collections.ts:756-802 | One file makes at most one root, and where one was known only after a 404. |
| Resources.Host.SyncAdditionalCollections | src/lib/postman/additional-collections.ts:736-806 | A run stopped anywhere: what it finds on the next start is what was announced, a root is made for a path only where none was found or the remote reported it missing, and a completed run updated every root it had found. |
| BundlePath.NormalizePath | src/lib/protocols/definition-bundle-support.ts:55-67 | The push-and-pop loop computes the normalization function. |
| BundlePath.ResolveIsAWalk | src/lib/protocols/definition-bundle-support.ts:29-67 | Resolution succeeds if and only if the target is permitted, no prefix of the walk leaves the root, and it ends on a named entry; the result has no empty, `.` or `..` segment. |
| BundlePath.CheckExactly | src/lib/protocols/definition-bundle-support.ts:29-45 | Which locations are refused: empty, with a scheme or a leading slash, a backslash, or NUL. |
| BundlePath.SchemeEndsExactly | src/lib/protocols/definition-bundle-support.ts:29-45 | A scheme is a letter, then letters, digits, plus, dot or minus, then a colon. |
| BundlePath.TargetExactly | src/lib/protocols/definition-bundle-support.ts:29-33 | What is resolved is the part of a location before its first fragment sign. |
| BundlePath.WalkStaysExactly | src/lib/protocols/definition-bundle-support.ts:55-67 | The stack never underflows if and only if no prefix has more steps up than down. |
| BundlePath.ClampingAgreesInside | src/lib/protocols/definition-bundle-support.ts:55-67 | Where no step leaves the root the result is that of section 5.2.4 of RFC 3986; elsewhere this code refuses. |
| BundlePath.RelativePathResolvesExactly | src/lib/protocols/definition-bundle-support.ts:29-67 | For canonical keys the relative path from a to b resolves to b if and only if its text is permitted and has no fragment sign. |
| BundlePath.ColonNameIsRefused | src/lib/protocols/definition-bundle-support.ts:29-45 | A key whose name has a colon cannot be referred to. |
| Placeholders.NumbersDifferExactly | scripts/sanitize-cassette.ts:108-116 | The numeric placeholders of all categories differ if and only if there are at most 1000 of each. |
| Placeholders.NumberIsKnownExactly | scripts/sanitize-cassette.ts:215-219 | A number is recognised by its own category if and only if it is one of the first 999, and by no other category up to the thousandth. |
| Placeholders.AliasIsInjective | scripts/sanitize-cassette.ts:465-477 | Aliases of different categories or numbers differ. |
| Placeholders.AliasIsKnownExactly | scripts/sanitize-cassette.ts:211-213 | An alias is recognised by its own category and no other. |
| Placeholders.AddCategory | scripts/sanitize-cassette.ts:470-479 | The loop over a category replaces every id of it that is new and no secret. |
| Placeholders.GroupCollections | scripts/sanitize-cassette.ts:449-455 | Collection ids are grouped by model identity, groups in order of first appearance. |
| Placeholders.AddCollections | scripts/sanitize-cassette.ts:449-469 | The ids of one model identity share an alias. |
| Placeholders.ReplacementPlan | scripts/sanitize-cassette.ts:446-481 | Every id that is no secret is replaced as its first category says, and nothing else is. |
| Placeholders.ReplacementsDifferExactly | scripts/sanitize-cassette.ts:446-481 | Two ids get one replacement if and only if they are equal or are collection ids of one model identity. |
| Placeholders.AddCandidateExactly | scripts/sanitize-cassette.ts:240-252 | A value is collected once, as its trimmed text, unless that is empty, redacted or a placeholder of the category. |
| Placeholders.IsIntegerExactly | scripts/sanitize-cassette.ts:248-248 | A text is a number if and only if it is digits, at least one, behind a minus or not. |
| Placeholders.EntityPlaceholderExactly | scripts/sanitize-cassette.ts:231-238 | A text is a placeholder of a category if and only if it is a synthetic id, spells a number of the category, or is an alias of it; a number if and only if it is one of the category. |
| Placeholders.PlaceholdersSpelled | scripts/sanitize-cassette.ts:99-120 | The numbers, the texts and the order of the categories. |
| Placeholders.PlaceholdersAddNothing | scripts/sanitize-cassette.ts:231-252 | Collecting aliases or the first 999 numbers of a category, as numbers or as texts, adds no candidate. |

## Left out

- Bootstrap.BootstrapRun.Run: an upload that took effect and then failed, or a multi-file create that was not confirmed, leaves a specification the run does not know (src/index.ts:3294-3299); the iff on `uploadLeft` states it. A specification that was adopted rather than created is not restored, as in the source.
- Bootstrap.BootstrapRun.Run: links, tags, authored collections and failed clean-up of imports are only reported, as in the source; other writers of the workspace, and a write that takes effect after it was rejected, are not modelled; an import never lands on a collection that is written in place.
- Bootstrap.BootstrapRun.Persist: workspace-only state written earlier in a run, and the scopes that end before collections are generated (src/index.ts:3416-3440), are not modelled.
- Bootstrap: that a receipt in a description certifies the stored content is an assumption about the remote (`VerifyReceipt`), as is that a delta reports the digest it stored; a client without `uploadSpecWithOutcome`, for which the source takes every upload for a new specification (src/index.ts:3333-3340).
- Bootstrap: the protocol path with its own store, the local artifact files and their rollback, and a rejection with the value `undefined`, which the source does not notice as a failure of a lane; multi-file content is one value here. A stored single file whose normalized form is the upload stays as it is, as in the source. That a run on which no call fails writes what was wanted is stated call by call (`FinishWrite`), not for other writers of an imported root.
- SpecReconcile, SpecPlan: path validation and case folding are parameters, validation being idempotent where a lemma says so; `createDefinitionBundle` with its hashes, create parents, the bulk body and the receipt that gates multi-file sync are not part of this model.
- Materialise: an item is named by the place of its creation, so ids are unique; the choice between `children` and `items`, event extensions and shape reports are made before; other writers of the collection are not modelled.
- Settle: parsing of rows, the pauses between attempts and the texts of errors.
- Receipt, ConvergentRoot, RootIdentity: JSON parsing is a parameter with the facts each lemma names; SHA-256 is uninterpreted, so nothing is said about collisions. Parts of a marker that are objects themselves are compared as values, not by the order of their keys.
- CassetteShape, ShapeDiff: parsing bodies as JSON or YAML, integer-like keys that JavaScript moves to the front, the key `__proto__`, and the report text.
- JsonInclusion: `NaN`, and values that are no JSON.
- Secrets: redaction of headers.
- SpecRerun: warnings, two paths that share one operation object through a YAML alias, lengths in UTF-16 units, and a text that begins with `[`, which normalization takes for JSON and the stamp for YAML; what a run prints from a text it has loaded, in the format of that text, is assumed to read back.
- CollectionWalk: the second walk, over directories in the v3 layout, and the loading of collections.
- Resources: failing writes of the state file, and a root that was created but never announced.
- BundlePath: reading members of a bundle.
- Placeholders: overrides for proven convergent roots, how candidates are collected by path and pattern, and synthetic ids, which are a parameter.
- HTTP, retries for tokens and rate limits, telemetry, input parsing, workspace selection and everything that probes live services: no lasting invariant, or plumbing.
