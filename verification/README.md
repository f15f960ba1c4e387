# Anjay: verified models of the LwM2M client core

Anjay is a LwM2M client written in C. This project models the parts of it whose correctness depends
on state that is changed step by step, and proves what they are for. Its Dafny files mirror the C
files: a C list that is edited in place is a sequence field that methods reassign (heap nodes where
sharing is the point), an object with callbacks is a class, a loop is a loop.

- **The data model and its transactions** (`Instances`, `DataModel`). Nested transactions of which
  only the outermost has an effect. Whatever happens inside, a failing outermost finish restores the
  data model, unless a commit or rollback handler itself fails. The built-in Access Control object is
  modelled exactly, its validation included. The handlers of all other Objects are arbitrary: they
  may fail, and a failing one, a commit included, may leave its own Object in any shape. What the
  application's handlers may do is fixed per data model by four sets of Objects, none of which holds
  Access Control: `faulty` ones may fail to commit or roll back, `fixed` ones may answer 4.05 to a
  begin or a remove, `partial` ones may answer 4.04 or 5.01 to a write, `shaky` ones may fail in any
  other way. What is proved of failures holds for all of them. For Objects in none of these sets, with
  memory and where the timer queue and the servers' reloads work (`calm`), success is proved as well.
- **Access Control** (`AccessMask`, `AclValidation`, `AccessPurge`, `AccessRepair`, `AccessSteps`,
  `AccessSync`, `AccessOutcome`). After the data model has changed, the Access Control instances are
  repaired: dangling and repeated ones are dropped, entries of dead servers are purged (a new owner is
  elected, or the instance goes together with what it governs), and new Instances get one. Proved for
  every state: what a successful repair establishes, that a failing one is rolled back, and when not
  even that can be relied upon, and that the rights of the servers that remain are left alone.
- **The bootstrap session** (`Bootstrap`, `BootstrapDelete`, `BootstrapWrite`, `HoldOff`). A
  transaction that stays open across messages, with a token, timers, a queue of notifications and a
  growing hold-off. One invariant holds between any two calls of any run; a session that is given up
  has never happened.
- **Notifications** (`NotifyQueue`): the sorted queue that the two above communicate through.
- **CRC-32** (`Crc32`): the table form with its inversions folded in is the standard checksum of
  section 8.1.1.6.2 of ITU-T V.42, and the standard checksum detects every burst of up to 32 bits.
- **Mutable lists** (`IoSched`, `SocketRefresh`, `BinaryAppData`): a list that is walked while
  handlers remove entries from it, two lists kept in step by one pass with a moving pointer, and a
  two-level store with a deep copy that shares no node with the original.
- **Streams and parsing** (`BlockDownload`, `InputStream`, `UriPath`, `QueryAttributes`): results
  that do not depend on how the data is split, on what follows a terminator, or on the order of the
  segments.

How the code differs from what is said about it:

- The comment on the election of an owner (`anjay_access_utils.c` 507-512) weighs Write and Delete
  alike and promises the first of the best. The code adds up the raw bits, so that Delete outweighs
  Write, and takes the last. `ElectionAsDocumented` says exactly when that makes no difference.
- The election can choose the default entry, SSID 0. The built-in Access Control object refuses that
  owner, so the whole synchronisation fails and is rolled back. `DoomedMeans` says exactly when.
- An Access Control instance that was written to directly and is dropped by the same
  synchronisation makes it fail as well; `WrittenMustSurvive` says exactly when that happens. A first
  Bootstrap Finish rejects a dangling instance before any synchronisation (handlers 405-430). Its
  validation looks for servers in the Server object, however, and the purge in the Security object:
  what is written for a server that only the former knows is accepted, and
  no synchronisation that still has to report the grant as written succeeds (`StrandedIsValid`,
  `OrphanWrittenFails`). A dangling one gets there when a
  Finish has been committed, the reaction to it has failed, so that the queue is kept, and its target
  is deleted before the next Finish, which has nothing left to validate.
- The comment on the purge (`anjay_access_utils.c` 664-674) promises that a dead owner is replaced or
  that its instance goes. The code looks at owners only where it drops their entries:
  `OwnerOutlivesPurge` says exactly which dead owners stay. Such an owner fails the object's own
  validation, and with it every later synchronisation that has to write (`StaleOwnerStays`).
- A failing synchronisation is meant to leave the data model alone. It does not when the repair has
  worked and another Object then fails to commit: Access Control has been committed, and the failing
  Object is in whatever shape its handler left it (`dm.h` 597-600). `CommitFailureShows` gives such a
  run. Nor does it when a faulty Object fails to roll back. `Sync` says that both take a faulty Object
  among those the purge takes an Instance from (`RiskAfterPrune`), and that without one a failure
  changes nothing; with one, a failed commit always shows (`RiskIsReal`).
- A Client Hold Off Time whose double does not fit in 64 bits loses the hold-off (`HoldOffPattern`).
- The comment in `schedule_bootstrap_timeout` (508-510) says that a purge that may be pending has to
  be cancelled first. Nothing there does; nothing has to, because none can be pending.

Nondeterministic choices (`*`) stand for what the modelled code does not decide: results of
application handlers within the four sets above, of the timer queue unless it is calm, of Bootstrap
Discover, and contents that are written. What poll answers, where a stream fails, what a file can
take and where memory runs out are parameters or properties of the environment, so that each
operation can be held to succeed whenever they let it.

## Model

| member | source | states |
|---|---|---|
| `DataModel.Dm.Begin` | Anjay_2021/Anjay/src/core/dm/anjay_dm_handlers.c:377-381 | opens one level; only the outermost one takes the snapshot that a rollback will restore |
| `DataModel.Dm.IncludeObject` | Anjay_2021/Anjay/src/core/dm/anjay_dm_handlers.c:383-413 | saves an Object once per transaction, or fails and leaves everything alone; 4.05 only from an Object whose handlers may answer that; with memory, the begin handler of an Object that is not shaky cannot answer anything else |
| `DataModel.Dm.CommitAll` | Anjay_2021/Anjay/src/core/dm/anjay_dm_handlers.c:415-432 | every included Object is committed even after one has failed; the result is OK exactly if none has; only included Objects with faulty handlers can fail, never Access Control; one that fails may be left in any shape, and all others keep what was written |
| `DataModel.Dm.RollBackAll` | Anjay_2021/Anjay/src/core/dm/anjay_dm_handlers.c:415-432 | every Object is back at the snapshot, except included ones with faulty handlers that failed; Access Control always |
| `DataModel.Dm.FinishWithoutValidation` | Anjay_2021/Anjay/src/core/dm/anjay_dm_handlers.c:448-464 | inner levels change nothing and pass the result on; the outermost restores the snapshot on an error and keeps the data on success, either of them but for mishaps among the included faulty Objects, and OK means that there were none |
| `DataModel.Dm.Finish` | Anjay_2021/Anjay/src/core/dm/anjay_dm_handlers.c:466-471 | OK means that the data are committed as they are, with Access Control validated if it was written to; any other outermost result means that, but for the mishaps, the snapshot is back, or the data are committed and a faulty Object has failed to; without faulty Objects there are no mishaps; with no shaky or faulty Object included it succeeds exactly if Access Control is sound or was not written to |
| `DataModel.Dm.Validate` | Anjay_2021/Anjay/src/core/dm/anjay_dm_handlers.c:434-446 | success at the outermost level means that Access Control is sound if it was written to, and has nothing left to validate; if no Object included is shaky it succeeds exactly then |
| `DataModel.Dm.Rollback` | Anjay_2021/Anjay/src/core/anjay_dm_core.h:89-92 | answers OK and, at the outermost level, restores the snapshot whatever happened since: completely without faulty Objects, and Access Control in any case |
| `DataModel.Dm.InstanceRemove` | Anjay_2021/Anjay/src/core/dm/anjay_dm_handlers.c:178-189 | on success exactly that Instance is gone; only its own Object is touched in any case; where nothing keeps the handlers from working, it does work, if the Instance is there |
| `DataModel.Dm.AcInstanceRemove` | Anjay_2021/Anjay/src/modules/access_control/anjay_access_control_handlers.c:115-137 | succeeds exactly if the instance is there, and removes just it |
| `DataModel.Dm.InstanceCreate` | Anjay_2021/Anjay/src/core/dm/anjay_dm_handlers.c:165-176 | on success exactly one Instance is added, in order; a new Access Control instance is blank and owned by the Bootstrap Server; it works where nothing keeps the handlers from working |
| `DataModel.Dm.AcResourceWrite` | Anjay_2021/Anjay/src/modules/access_control/anjay_access_control_handlers.c:232-322 | success means that one instance has changed as the Resource written demands; a refused write changes nothing; in an included object, writing works if there is such an instance and it accepts the value |
| `DataModel.Dm.AcWriteHandler` | Anjay_2021/Anjay/src/modules/access_control/anjay_access_control_handlers.c:232-322 | the handler succeeds exactly if there is such an instance and it accepts the value; success is what makes the object validate later |
| `DataModel.Dm.InstancePresent` | Anjay_2021/Anjay/src/core/anjay_dm_core.c:735-762 | the search that stops early finds an Instance exactly if it exists, because the list is ascending |
| `DataModel.Dm.SelectFreeIid` | Anjay_2021/Anjay/src/core/dm/anjay_dm_create.c:66-93 | the smallest ID that is not taken, or 4.00 exactly if all 65535 are; fewer than 65535 Instances leave one free |
| `Instances.AclSetMeans` | Anjay_2021/Anjay/src/modules/access_control/anjay_access_control_handlers.c:201-230 | writing an ACL entry keeps the list ascending, so that later searches may stop early; the SSID's entry holds the mask and all others are as they were |
| `AccessMask.GetMask` | Anjay_2021/Anjay/src/core/anjay_access_utils.c:138-163 | the lookup with its early exit finds the server's own entry if there is one, else the default entry, whatever their order |
| `AccessMask.MaskOf` | Anjay_2021/Anjay/src/core/anjay_access_utils.c:243-302 | own entry, else default entry, else all but Create for the owner of an Instance with an empty ACL, else nothing; for every SSID including 0 and 65535 |
| `AccessMask.OneMask` | Anjay_2021/Anjay/src/core/anjay_access_utils.c:243-302 | that leaves one mask only |
| `AccessMask.MayDoMeans` | Anjay_2021/Anjay/src/core/anjay_access_utils.c:243-302 | the same rule entry by entry, with SSIDs 0 and 65535 and masks 0 and 15 as numbers, both directions |
| `AccessMask.FullButCreateMeans` | Anjay_2021/Anjay/include_public/anjay/dm.h:1049-1061 | the owner's rights are Read, Write, Execute and Delete, and neither Create nor anything else |
| `AccessMask.FindByTarget` | Anjay_2021/Anjay/src/core/anjay_access_utils.c:197-241 | finds the first instance with the target; an instance whose target is not set ends the search with an error |
| `AccessMask.AccessControlMask` | Anjay_2021/Anjay/src/core/anjay_access_utils.c:268-302 | the mask is the one the governing instance gives, and none if nothing governs the target; said once more in numbers, by the first instance for the target and the entries of its ACL |
| `AccessMask.ElectInstanceOwner` | Anjay_2021/Anjay/src/core/anjay_access_utils.c:513-533 | elects the last entry of the highest rank, where the rank is the sum of the raw Write and Delete bits |
| `AccessMask.BothRightsWin` | Anjay_2021/Anjay/src/core/anjay_access_utils.c:513-533 | an entry with both rights beats all entries without |
| `AccessMask.NobodyElected` | Anjay_2021/Anjay/src/core/anjay_access_utils.c:513-533 | the default entry is elected, which is nobody, exactly if it comes first and outranks all others |
| `AccessMask.DocumentedElectionDiffers` | Anjay_2021/Anjay/src/core/anjay_access_utils.c:507-512 | two ACLs for which the code elects another server than its comment says |
| `AccessMask.ElectionAsDocumented` | Anjay_2021/Anjay/src/core/anjay_access_utils.c:507-533 | the code elects whom its comment says exactly if no equally weighty entry after the documented winner holds Delete where that one does, or just anything where it does not |
| `AclValidation.ValidationContext.GetOrCreate` | Anjay_2021/Anjay/src/core/anjay_access_utils.c:739-760 | an Object met first is entered in order with its own Instances and 65535 as allowed; one met before is found |
| `AclValidation.ValidationContext.ValidateInstRef` | Anjay_2021/Anjay/src/core/anjay_access_utils.c:769-793 | accepts exactly what exists (or 65535 of an existing Object) and has not been accepted before; the struck-out lists refine that set |
| `AclValidation.CreateAllowedIids` | Anjay_2021/Anjay/src/core/anjay_access_utils.c:721-737 | the ascending list of exactly the allowed Instance IDs |
| `AclValidation.ValidateAll` | Anjay_2021/Anjay/src/core/anjay_access_utils.c:769-793 | in any sequence of calls, a call succeeds exactly if its target is allowed and has not come up earlier in the sequence |
| `AclValidation.TransactionValidate` | Anjay_2021/Anjay/src/modules/access_control/anjay_access_control_handlers.c:397-448 | with something to validate, the Access Control object accepts exactly the states whose targets are all set, allowed and different and whose owners and ACL SSIDs are all valid; otherwise it accepts without looking |
| `AclValidation.AcValidMeans` | Anjay_2021/Anjay/src/modules/access_control/anjay_access_control_handlers.c:397-448 | what is accepted, in numbers: Object IDs from 1 to 65534 but 2, Instances that exist or 65535, each target once, SSIDs 0, of known servers, and 65535 for an owner |
| `AclValidation.ServersMean` | Anjay_2021/Anjay/src/modules/access_control/anjay_access_control_handlers.c:386-395 | if all Server Instances can be read, the known servers are those whose Short Server IDs they hold |
| `AccessPurge.EnumerateValidSsids` | Anjay_2021/Anjay/src/core/anjay_access_utils.c:441-465 | an ascending list of exactly the SSIDs of the Security object; an error exactly if one cannot be read |
| `AccessRepair.LiveMeans` | Anjay_2021/Anjay/src/core/anjay_access_utils.c:441-465 | the live servers are 65535 if there is an account of the Bootstrap Server, and what the Short Server ID Resources of the others say, if in range |
| `AccessPurge.PurgeAcl` | Anjay_2021/Anjay/src/core/anjay_access_utils.c:572-584 | deleting from the list in place leaves exactly the entries of live servers, the default and the Bootstrap Server's, and notices if the owner's entry went |
| `AccessPurge.RewrittenIsPurged` | Anjay_2021/Anjay/src/core/anjay_access_utils.c:547-635 | what stays of an instance has no entry of a dead server |
| `AccessPurge.SameRights` | Anjay_2021/Anjay/src/core/anjay_access_utils.c:547-635 | for every live server the mask is the same before and after an instance is purged, with whatever owner is elected |
| `AccessPurge.OwnerOutlivesPurge` | Anjay_2021/Anjay/src/core/anjay_access_utils.c:547-635 | of the instances that stay, one has a live owner afterwards exactly if it had one or its owner had an entry of its own |
| `AccessPurge.StaleOwners` | Anjay_2021/Anjay/src/core/anjay_access_utils.c:664-674 | two instances with a dead owner, one that lists another server and one that lists nobody, which the purge leaves as they are although the comment promises a new owner or their removal |
| `AccessRepair.PrunedIsSound` | Anjay_2021/Anjay/src/core/anjay_access_utils.c:804-853 | after dropping dangling and repeated instances every target is allowed and governed once |
| `AccessRepair.SurvivesUnlessCondemned` | Anjay_2021/Anjay/src/core/anjay_access_utils.c:637-714 | an Instance survives the purge exactly if no orphan governs it |
| `AccessRepair.PurgeLeavesLive` | Anjay_2021/Anjay/src/core/anjay_access_utils.c:664-714 | after the purge no ACL mentions a dead server |
| `AccessRepair.PurgeKeepsDistinct` | Anjay_2021/Anjay/src/core/anjay_access_utils.c:676-714 | the purge keeps targets different |
| `AccessRepair.PurgeKeepsAllowed` | Anjay_2021/Anjay/src/core/anjay_access_utils.c:676-714 | the purge keeps targets existing, because nothing else governs what an orphan takes along |
| `AccessRepair.SameLiveSsids` | Anjay_2021/Anjay/src/core/anjay_access_utils.c:676-714 | the set of live servers does not change under the purge if nothing governs a Security Instance |
| `AccessRepair.PurgeKeepsRights` | Anjay_2021/Anjay/src/core/anjay_access_utils.c:268-302 | the lookup for a target finds the rewritten form of what it found before, and a live server may do the same; targets may be repeated |
| `AccessRepair.AddingIsSound` | Anjay_2021/Anjay/src/core/anjay_access_utils.c:933-985 | after adding, all targets exist exactly if everything reported as new does |
| `AccessSync.WhatChanged` | Anjay_2021/Anjay/src/core/anjay_access_utils.c:398-439 | the three flags are exact although the loop stops early; which they are is said in terms of the queue alone: instances of 0, 1 or 2, of anything but 0 and 2, and any Instance added there by anybody but 65535 |
| `AccessSteps.AddsComeWithRemoves` | Anjay_2021/Anjay/src/core/anjay_access_utils.c:398-439 | additions are never flagged without the check of targets |
| `AccessSteps.FlagsMean` | Anjay_2021/Anjay/src/core/anjay_access_utils.c:398-439 | for a valid queue the flags mean that Instances of Objects 0 to 2, or of others than 0 and 2, have come or gone, and that some Instance is known to be added by a server other than 65535 |
| `AccessSync.AccessControl.EnumerateInstancesToRemove` | Anjay_2021/Anjay/src/core/anjay_access_utils.c:804-827 | lists exactly the instances whose target is not allowed or was met before; fails exactly if a target cannot be read |
| `AccessSync.AccessControl.PerformRemoves` | Anjay_2021/Anjay/src/core/anjay_access_utils.c:832-853 | exactly the first instance of every allowed target is left, and the loss is reported |
| `AccessSync.AccessControl.ProcessOrphaned` | Anjay_2021/Anjay/src/core/anjay_access_utils.c:547-635 | rewrites an instance that loses some entries, marks one that loses all, reports what it changed, and fails where only the default entry could be elected |
| `AccessSync.AccessControl.RemoveReferred` | Anjay_2021/Anjay/src/core/anjay_access_utils.c:637-663 | removes the governed Instance if it is there, and nothing else |
| `AccessSync.AccessControl.RemoveOrphanedInstances` | Anjay_2021/Anjay/src/core/anjay_access_utils.c:664-714 | orphans go with what they govern, all other instances stay in purged form, and every change is reported |
| `AccessSync.AccessControl.EnsureGoverned` | Anjay_2021/Anjay/src/core/anjay_access_utils.c:949-981 | adds one grant under a free ID if nothing governs the target yet |
| `AccessSync.AccessControl.PerformAdds` | Anjay_2021/Anjay/src/core/anjay_access_utils.c:929-985 | everything reported as new is governed afterwards; nothing else is added |
| `AccessSync.AccessControl.GenerateApparent` | Anjay_2021/Anjay/src/core/anjay_access_utils.c:987-1033 | succeeds exactly if every Access Control instance written to is still there, and reports each of their targets |
| `AccessSync.AccessControl.Repair` | Anjay_2021/Anjay/src/core/anjay_access_utils.c:1054-1076 | the steps run in order, exactly those that the flags call for, and everything that lost or gained Instances is reported; with memory, no unreliable Object at risk and a change that is `Feasible`, they work |
| `AccessSync.AccessControl.Sync` | Anjay_2021/Anjay/src/core/anjay_access_utils.c:1037-1085 | success establishes `Synchronised`, and a sound Access Control object unless no instance is new or rewritten; failure at the outermost level leaves what there was, or a repair that worked, either of them but for the mishaps; these befall only faulty Objects that the purge takes something from, and where there is none of these a failure changes nothing; the flag is reset; a call made meanwhile does nothing; it succeeds if the change is `Feasible`, there is memory, no Object at risk has handlers that may fail, servers can be reloaded and the outcome is valid |
| `AccessSteps.RiskAfterPrune` | Anjay_2021/Anjay/src/core/anjay_access_utils.c:664-714 | what is at risk, which can be told from the state before the call and what is queued, is exactly the Objects that the purge takes an Instance from |
| `AccessSync.AccessControl.NotifyPerform` | Anjay_2021/Anjay/src/core/anjay_notify.c:107-144 | acting upon notifications changes the data model by one synchronisation at most, whether it succeeds or fails (then with the same bound on the mishaps), and not at all while one is running; in such an environment it succeeds |
| `AccessSync.AccessControl.NotifyFlush` | Anjay_2021/Anjay/src/core/anjay_notify.c:146-150 | the nested flush leaves the data model alone and empties the queue |
| `AccessSteps.SyncResult` | Anjay_2021/Anjay/src/core/anjay_access_utils.c:1037-1085 | targets exist and are governed once, no ACL mentions a server that was dead before, new Instances are governed, other Objects lose Instances at most: by what was flagged; if nothing governs a Security Instance, no server that is dead afterwards is mentioned either; also said without the flags, by the Objects whose Instances have come or gone and by what was added |
| `AccessOutcome.SyncKeepsRights` | Anjay_2021/Anjay/src/core/anjay_access_utils.c:268-302 | across a whole synchronisation, whatever had changed, the lookup for a governed target finds the same instance, up to its purge, and no live server's rights change; only orphans, and missing targets if targets are looked at, are excepted |
| `AccessOutcome.EachIsLeftOrNew` | Anjay_2021/Anjay/src/core/anjay_access_utils.c:547-635 | whatever is an Access Control instance afterwards is a grant of mask 15 for something new, to the server that added it, or an instance from before with the same target, of whose entries exactly those of 0, 65535 and live servers are left if servers were looked at |
| `AccessOutcome.NothingElseGoverned` | Anjay_2021/Anjay/src/core/anjay_access_utils.c:929-985 | across a whole synchronisation, a target that nothing governed is governed afterwards only if it was reported as new |
| `AccessOutcome.NewOnesGovernedOnce` | Anjay_2021/Anjay/src/core/anjay_access_utils.c:933-985 | every Instance reported as new is governed by exactly one instance |
| `AccessOutcome.AllTargetsExist` | Anjay_2021/Anjay/src/core/anjay_access_utils.c:1037-1085 | whether all targets exist in the end is decided by the state before the purge: what is reported as new must exist and not be governed by an orphan |
| `AccessOutcome.DoomedMeans` | Anjay_2021/Anjay/src/core/anjay_access_utils.c:573-613 | exactly which instances no purge can get past: dead owner listed, default entry kept and strictly outranking all other kept ones |
| `AccessOutcome.DefaultRightsAreDoomed` | Anjay_2021/Anjay/src/core/anjay_access_utils.c:605-613 | a concrete such instance: dead owner, default rights, nobody else |
| `AccessOutcome.StillTaken` | Anjay_2021/Anjay/src/core/anjay_access_utils.c:1054-1076 | an ID of an Access Control instance is taken after the repairs exactly if its instance is neither dangling nor repeated nor an orphan, as far as that was looked for, or a new grant has got it |
| `AccessOutcome.WrittenMustSurvive` | Anjay_2021/Anjay/src/core/anjay_access_utils.c:987-1078 | where nothing is added, a synchronisation whose repairs work succeeds exactly if every instance written to survives them |
| `AccessOutcome.FeasibleIsNeeded` | Anjay_2021/Anjay/src/core/anjay_access_utils.c:1037-1085 | where nothing is added, a successful synchronisation needs just the conditions of `Feasible`, which are told from the state before the call: no unreadable target or SSID, nobody without a candidate for the new owner, no written instance dropped |
| `AccessOutcome.SoundOutcomes` | Anjay_2021/Anjay/src/core/anjay_access_utils.c:1037-1085 | conditions on the state before the call under which every outcome passes the Access Control object's validation |
| `AccessOutcome.DanglingWrittenFails` | Anjay_2021/Anjay/src/core/anjay_access_utils.c:1006-1025 | a concrete written instance whose target is gone, with which no synchronisation succeeds |
| `AccessOutcome.StrandedIsValid` | Anjay_2021/Anjay/src/modules/access_control/anjay_access_control_handlers.c:397-448 | a concrete configuration that the Access Control object accepts: its only grant is for a server with a Server Instance but no Security Instance |
| `AccessOutcome.OrphanWrittenFails` | Anjay_2021/Anjay/src/core/anjay_access_utils.c:441-465 | with the grant just written, no synchronisation of that configuration succeeds: the purge takes the server for dead |
| `AccessOutcome.StaleOwnerStays` | Anjay_2021/Anjay/src/core/anjay_access_utils.c:664-714 | a dead owner without an entry of its own stays, and makes the Access Control object reject the outcome, so that every synchronisation that has to write fails |
| `AccessOutcome.RepairShows` | Anjay_2021/Anjay/src/core/dm/anjay_dm_handlers.c:415-464 | where there was an orphan, and any new Instance is granted to a live server, a repair that worked shows in Access Control, whatever a failing commit does to other Objects: no outcome is both of what `Sync` says a failure may leave |
| `AccessOutcome.RiskIsReal` | Anjay_2021/Anjay/src/core/dm/anjay_dm_handlers.c:415-464 | under the same condition on grants, with an Object at risk, a repair that worked and a commit that failed leave a data model that differs from what there was, whatever the failing handlers have done |
| `AccessOutcome.CommitFailureShows` | Anjay_2021/Anjay/include_public/anjay/dm.h:592-606 | a concrete repair that works and whose commit fails in one Object, which puts its Instance back: the outcome is neither what there was nor that of any repair, and the Instance has nothing governing it any more |
| `AccessOutcome.AbandonedIsFeasible` | Anjay_2021/Anjay/src/core/anjay_access_utils.c:664-714 | nothing is in the way of that repair, and every outcome of it is valid: the conditions under which `Sync` succeeds can be met |
| `HoldOff.Backoff.Schedule` | Anjay_2021/Anjay/src/core/anjay_bootstrap_core.c:837-881 | a successful schedule puts the attempt one hold-off after the last one and doubles the hold-off within its bounds; a failed one only settles the fields; it works exactly if the instant fits and the scheduler takes the job |
| `HoldOff.FollowsMeans` | Anjay_2021/Anjay/src/core/anjay_bootstrap_core.c:837-881 | in numbers: the attempt comes the hold-off times a thousand million nanoseconds after the last one or now, and the next hold-off is 3 to 120 seconds |
| `HoldOff.AfterMeans` | Anjay_2021/Anjay/src/core/anjay_bootstrap_core.c:837-881 | an instant can be represented exactly if its seconds fit in 63 bits |
| `HoldOff.Backoff.Request` | Anjay_2021/Anjay/src/core/anjay_bootstrap_core.c:945-978 | the first request takes the hold-off of the account, later ones the stored one; none is scheduled without; it schedules exactly if there is a hold-off, the instant fits and the scheduler takes the job |
| `HoldOff.HoldOffAfter` | Anjay_2021/Anjay/src/core/anjay_bootstrap_core.c:837-881 | after n+1 schedules the hold-off is min(120, max(3, 2 h0) 2^n), and it is the gap to the next attempt |
| `HoldOff.GapsGrow` | Anjay_2021/Anjay/src/core/anjay_bootstrap_core.c:837-881 | gaps lie in [3, 120], never shrink, and are 120 from the seventh on |
| `HoldOff.HoldOffLost` | Anjay_2021/Anjay/src/core/anjay_bootstrap_core.c:837-881 | an initial hold-off whose double does not fit in 64 bits is lost, and the second attempt is due at once |
| `HoldOff.HoldOffLostExample` | Anjay_2021/Anjay/src/core/anjay_bootstrap_core.c:837-881 | two attempts, an initial hold-off of 2^62 seconds: both are due at the same instant |
| `HoldOff.HoldOffPattern` | Anjay_2021/Anjay/src/core/anjay_bootstrap_core.c:837-881 | the pattern holds exactly if the double of the initial hold-off fits |
| `HoldOff.RequestAll` | Anjay_2021/Anjay/src/core/anjay_bootstrap_core.c:837-881 | any run of requests from a reset: those that schedule something are the attempts the pattern is about, whatever requests fail in between; a failed first try already fixes the instant and the hold-off |
| `BootstrapDelete.DeleteInstance` | Anjay_2021/Anjay/src/core/anjay_bootstrap_core.c:328-342 | removes the Instance and, only then, exactly what was queued about it; 4.05 only from an Object whose handlers may answer that |
| `BootstrapDelete.DeleteObject` | Anjay_2021/Anjay/src/core/anjay_bootstrap_core.c:349-382 | OK for an Object that can be modified leaves exactly the Instances of Security whose bootstrap flag is set, and nothing of any other Object; in any case the queue loses exactly what it said about the Instances that were deleted, which are the Object's own, and in an Object that can be modified all up to some point but the account; it is OK if nothing but 4.05 keeps the handlers from working |
| `BootstrapDelete.DeleteAll` | Anjay_2021/Anjay/src/core/anjay_bootstrap_core.c:424-431 | OK exactly if no Object has failed; every other Object whose handlers never answer 4.05 is left with exactly the account, each processed whatever happened to the others; the queue loses nothing but what it said about deleted Instances, in the failed ones as well; only an Object with unreliable handlers can fail |
| `BootstrapDelete.Delete` | Anjay_2021/Anjay/src/core/anjay_bootstrap_core.c:384-432 | what a Bootstrap Delete of everything, an Object, an Instance or anything deeper does to the data model and to the queue, also when it fails; it succeeds if nothing keeps the handlers concerned from working |
| `BootstrapDelete.DeleteOne` | Anjay_2021/Anjay/src/core/anjay_bootstrap_core.c:411-421 | just that Instance goes, with exactly what was queued about it; an absent one changes nothing |
| `BootstrapWrite.WithInstanceOnDemand` | Anjay_2021/Anjay/src/core/anjay_bootstrap_core.c:203-230 | creates the Instance only if it is missing and reports it only if it was created and written; it is there afterwards, and all entries that were consumed are about it and their Resources reported; nothing reported is forgotten, and what is added is about this Instance |
| `BootstrapWrite.WriteResource` | Anjay_2021/Anjay/src/core/dm/anjay_dm_write.c:91-137 | an unsupported or forbidden Resource is refused without effect; success keeps the Instances and reports the Resource; in an Object that works the answer is that of the check |
| `BootstrapWrite.WriteObject` | Anjay_2021/Anjay/src/core/anjay_bootstrap_core.c:240-260 | every Instance named in the payload is there afterwards and every Resource named is reported, and the Object grows by exactly the Instances reported as added, unless its write handlers may answer 4.04 or 5.01; in any case only Instances named in the payload are reported on top; in an Object that works it succeeds if every entry can be written or answers 4.04 or 5.01 |
| `BootstrapWrite.HasMultipleBootstrapAccounts` | Anjay_2021/Anjay/src/core/anjay_bootstrap_core.c:262-287 | counting with early exit says exactly whether there are two accounts of the Bootstrap Server |
| `BootstrapWrite.Write` | Anjay_2021/Anjay/src/core/anjay_bootstrap_core.c:289-326 | what a Bootstrap Write does to its Object and to the queue: what it is about is there and reported, a single Resource even where the write handlers may answer 4.04 or 5.01; other Objects are left alone; Security keeps one Bootstrap account at most; in an Object that works and with such a payload it succeeds unless Security ends up with two accounts |
| `Bootstrap.Session.StartIfNotStarted` | Anjay_2021/Anjay/src/core/anjay_bootstrap_core.c:74-99 | opens the transaction exactly if it is not open, binds the token, and leaves no purge pending |
| `Bootstrap.Session.Abort` | Anjay_2021/Anjay/src/core/anjay_bootstrap_core.c:101-109 | the data model is what it was when the session started, but for faulty Objects; Access Control in any case |
| `Bootstrap.Session.Cleanup` | Anjay_2021/Anjay/src/core/anjay_bootstrap_core.c:992-1002 | nothing is pending, and a session in progress is undone, but for faulty Objects |
| `Bootstrap.Session.Write` | Anjay_2021/Anjay/src/core/anjay_bootstrap_core.c:289-326 | happens inside the session, which it starts; a target that cannot be written does not even start one; it succeeds if nothing but a second account keeps it from doing so |
| `Bootstrap.Session.Delete` | Anjay_2021/Anjay/src/core/anjay_bootstrap_core.c:384-432 | happens inside the session, which it starts in any case; also when it fails the queue loses only what it said about deleted Instances; it succeeds if nothing keeps it from doing so |
| `Bootstrap.Session.ValidateConfiguration` | Anjay_2021/Anjay/src/core/anjay_bootstrap_core.c:525-533 | 4.06 or OK, and the session stays open with the data unchanged; OK means that Access Control is sound if it was written to |
| `Bootstrap.Session.ScheduleTimeout` | Anjay_2021/Anjay/src/core/anjay_bootstrap_core.c:490-523 | a purge is scheduled only for an account that exists, and never in place of another; it is scheduled if the account says when, unless the timer queue refuses |
| `Bootstrap.Session.FinishImpl` | Anjay_2021/Anjay/src/core/anjay_bootstrap_core.c:538-574 | committed and synchronised, or not committed and over, with all but the mishaps kept, or committed and restarted on top of what was committed, which one synchronisation at most has changed; then the queue is kept or already acted upon |
| `Bootstrap.Session.Finish` | Anjay_2021/Anjay/src/core/anjay_bootstrap_core.c:576-584 | success ends the session with an empty queue; a configuration with an unsound Access Control object that was written to is rejected with 4.06, and whatever is rejected leaves the session open, with data, fallback and queue as they were; what is committed is sound if it was written to; where nothing keeps handlers, the synchronisation and timers from working, it succeeds exactly if the configuration is sound or was not written to; what a server other than 65535 has added is then governed, and a purge is pending exactly for an account that expires |
| `Bootstrap.Session.RegularConnectionAvailable` | Anjay_2021/Anjay/src/core/anjay_bootstrap_core.c:593-614 | does nothing while our request is under way; otherwise success ends the session and resets the hold-off; a rejected configuration leaves everything as it was, a failed commit all but the mishaps, and anything later one synchronisation at most; the same holds for its success |
| `Bootstrap.Session.PurgeJob` | Anjay_2021/Anjay/src/core/anjay_bootstrap_core.c:460-488 | finds exactly the Bootstrap Server's account; success means that it is gone and that nothing was gained or changed along with it; otherwise the data model is as it was, or as such a purge leaves it, either of them but for mishaps; these befall only faulty Objects among Security and those that lose an Instance with the account, and without such Objects everything is as it was; the account is the Security Instance whose bootstrap flag is set, and where nothing keeps it from working the purge succeeds |
| `Bootstrap.Session.FinishTimeoutJob` | Anjay_2021/Anjay/src/core/anjay_bootstrap_core.c:642-655 | gives up the session if the Bootstrap Server is active, which restores the data model but for faulty Objects |
| `Bootstrap.Session.RequestJob` | Anjay_2021/Anjay/src/core/anjay_bootstrap_core.c:883-923 | sends a request only on another connection than the session's, and never while one is under way; in a calm environment it is sent if there is such a connection and it is online |
| `Bootstrap.Session.PerformAction` | Anjay_2021/Anjay/src/core/anjay_bootstrap_core.c:945-978 | schedules one attempt, in line with the hold-off, or none; the first one, with an account and a hold-off, is pending for now plus the hold-off exactly if that fits and the scheduler takes it; none is scheduled only without these |
| `Bootstrap.Session.OnResponse` | Anjay_2021/Anjay/src/core/anjay_bootstrap_core.c:719-787 | starts the session exactly on the expected answer |
| `Bootstrap.Session.InvokeAction` | Anjay_2021/Anjay/src/core/anjay_bootstrap_core.c:670-700 | what each message does, and that the timer waiting for Bootstrap Finish runs after every message that succeeds but Finish; where nothing keeps the message from being carried out, it succeeds |
| `Bootstrap.Run` | Anjay_2021/Anjay/src/core/anjay_bootstrap_core.c:74-109 | over every run of messages, answers and jobs: depth 1 exactly while in progress, token bound only then, no purge pending then |
| `Bootstrap.TakeStep` | Anjay_2021/Anjay/src/core/anjay_bootstrap_core.c:74-109 | every step keeps the invariant, and one that commits nothing keeps what giving up would restore |
| `Bootstrap.GivenUp` | Anjay_2021/Anjay/src/core/anjay_bootstrap_core.c:992-1002 | any run of messages, answers, requests, timeouts and shutdowns in which nothing is finished or purged, followed by a shutdown, leaves the data model as it was before; Access Control in any case |
| `Bootstrap.GoneForGood` | Anjay_2021/Anjay/src/core/anjay_bootstrap_core.c:460-488 | synchronisation does not bring a purged account back, and nothing else is gained |
| `NotifyQueue.Queue.FindOrCreateObjectEntry` | Anjay_2021/Anjay/src/core/anjay_notify.c:152-168 | finds the Object's entry or inserts a blank one in its place |
| `NotifyQueue.Queue.InstanceCreated` | Anjay_2021/Anjay/src/core/anjay_notify.c:213-230 | adds the ID to the known additions of exactly that Object |
| `NotifyQueue.Queue.InstanceRemoved` | Anjay_2021/Anjay/src/core/anjay_notify.c:232-245 | takes the ID out of the known additions of exactly that Object and flags it |
| `NotifyQueue.Queue.ResourceChange` | Anjay_2021/Anjay/src/core/anjay_notify.c:269-303 | adds the Resource, keeping the order by Instance and Resource |
| `NotifyQueue.Queue.DropResourceChanges` | Anjay_2021/Anjay/src/core/anjay_bootstrap_core.c:111-134 | drops exactly the entries of the Instance: the early exits are safe because the lists are sorted |
| `NotifyQueue.StretchOfInstance` | Anjay_2021/Anjay/src/core/anjay_bootstrap_core.c:125-133 | in a sorted list the entries of one Instance are one stretch |
| `Crc32.Table.Update` | Anjay_2021/Anjay/demo/firmware_update.c:239-251 | the table loop computes the standard register step for every chunk; filling the table lazily is sound |
| `Crc32.EntryForByte` | Anjay_2021/Anjay/demo/firmware_update.c:227-237 | the entry with the inversions folded in equals the standard entry, inverted and fixed up |
| `Crc32.ByteStep` | Anjay_2021/Anjay/demo/firmware_update.c:247-250 | one lookup equals eight bit-serial shifts |
| `Crc32.FirstEntryIsNonzero` | Anjay_2021/Anjay/demo/firmware_update.c:240-245 | the test for an unfilled table cannot mistake a filled one |
| `Crc32.StandardAppend` | Anjay_2021/Anjay/demo/firmware_update.c:253-280 | chunked computation equals one-shot computation |
| `Crc32.CheckValues` | Anjay_2021/Anjay/demo/firmware_update.c:253-309 | the standard checksum of nothing, of a zero byte and of the digits 1 to 9, whose value every description of CRC-32 gives |
| `Crc32.FileCrc` | Anjay_2021/Anjay/demo/firmware_update.c:253-280 | OK exactly if the file can be read to the end, and then the standard CRC-32 of its contents |
| `Crc32.ValidateFirmware` | Anjay_2021/Anjay/demo/firmware_update.c:291-319 | an image is accepted, or found to need too much memory, exactly if magic and version are right, the file can be read and the stored checksum is the CRC-32 of its contents |
| `Crc32.FeedIsFeedBits` | Anjay_2021/Anjay/demo/firmware_update.c:227-251 | the byte-wise register is the bit-serial one |
| `Crc32.WordIsInjective` | Anjay_2021/Anjay/demo/firmware_update.c:227-251 | different words of up to 32 bits have different remainders |
| `Crc32.FeedBitsIsInjective` | Anjay_2021/Anjay/demo/firmware_update.c:227-251 | different registers stay different under any message |
| `Crc32.BurstChangesChecksum` | Anjay_2021/Anjay/demo/firmware_update.c:297-309 | any two messages of one length that differ only within 32 consecutive bits have different checksums |
| `Crc32.FourByteCorruptionChangesChecksum` | Anjay_2021/Anjay/demo/firmware_update.c:297-309 | and so any corruption within four consecutive bytes is detected |
| `BlockDownload.ParseRanges` | Anjay_2021/Anjay/demo/demo_cmds.c:477-525 | accepts exactly the strictly separated range lists and builds the skips between them |
| `BlockDownload.SeparatedMeans` | Anjay_2021/Anjay/demo/demo_cmds.c:477-525 | what is accepted, in numbers: 63-bit starts, nonempty ranges, each starting after the end of the one before, and only the last one open |
| `BlockDownload.RequestedMeans` | Anjay_2021/Anjay/demo/demo_cmds.c:477-525 | one range asks for the bytes from its start to before its end, or to the end of the data, and no range for everything |
| `BlockDownload.WantedAppend` | Anjay_2021/Anjay/demo/demo_cmds.c:477-525 | several ranges ask for their bytes one after the other |
| `BlockDownload.SkipsMeanRanges` | Anjay_2021/Anjay/demo/demo_cmds.c:477-525 | what is left to download by offset and skips is exactly the ranges, in order |
| `BlockDownload.Transfer.SetNextBlockOffset` | Anjay_2021/Anjay/src/core/downloader/anjay_http.c:389-400 | the next offset may only move forward |
| `BlockDownload.Writer.OnNextBlock` | Anjay_2021/Anjay/demo/demo_cmds.c:363-396 | whatever the block, what is written plus what is still to come stays the same; a file that takes only part of it ends up with that part |
| `BlockDownload.NothingAfterTheEnd` | Anjay_2021/Anjay/demo/demo_cmds.c:363-396 | at the end of the remote data nothing is still to come |
| `BlockDownload.Download` | Anjay_2021/Anjay/src/core/downloader/anjay_http.c:116-171 | any split into blocks yields the same file; the download succeeds exactly if the stream does not break off and the file takes all that is wanted; otherwise it has written a first part of it |
| `BlockDownload.DownloadBlocks` | Anjay_2021/Anjay/demo/demo_cmds.c:450-535 | the command works exactly if the ranges are accepted, the stream does not break off and there is room; the file is then the concatenation of the requested ranges in order, otherwise a first part of it, and nothing for rejected ranges |
| `BinaryAppData.Container.FindInstance` | Anjay_2021/Anjay/demo/objects/binary_app_data_container.c:97-109 | the search that stops early is exact |
| `BinaryAppData.Container.InstanceCreate` | Anjay_2021/Anjay/demo/objects/binary_app_data_container.c:136-164 | inserts one Instance in order, if there is memory |
| `BinaryAppData.Container.InstanceRemove` | Anjay_2021/Anjay/demo/objects/binary_app_data_container.c:166-186 | removes just that Instance |
| `BinaryAppData.Container.InstanceReset` | Anjay_2021/Anjay/demo/objects/binary_app_data_container.c:188-200 | empties just that Instance |
| `BinaryAppData.Container.ResourceRead` | Anjay_2021/Anjay/demo/objects/binary_app_data_container.c:214-244 | reads what was written |
| `BinaryAppData.Container.ResourceWrite` | Anjay_2021/Anjay/demo/objects/binary_app_data_container.c:271-321 | stores the payload exactly if it arrives whole, in at most 1024 bytes, and there is memory or the Resource Instance; otherwise leaves what the failing branch leaves |
| `BinaryAppData.ArrivesMeans` | Anjay_2021/Anjay/demo/objects/binary_app_data_container.c:246-321 | a payload below 1024 bytes arrives from a context that does not fail, one of exactly 1024 if the end is announced with it, and a longer one never |
| `BinaryAppData.WithValueMeans` | Anjay_2021/Anjay/demo/objects/binary_app_data_container.c:246-321 | after a write the Resource Instance holds the data and the others are as they were |
| `BinaryAppData.CreatedMeans` | Anjay_2021/Anjay/demo/objects/binary_app_data_container.c:136-164 | creating adds one empty Instance and keeps the order |
| `BinaryAppData.RemovedMeans` | Anjay_2021/Anjay/demo/objects/binary_app_data_container.c:166-186 | removing takes away the Instance with the ID, and nothing else |
| `BinaryAppData.ReadBack` | Anjay_2021/Anjay/demo/objects/binary_app_data_container.c:214-321 | what has been written is what is read |
| `BinaryAppData.Container.ResourceReset` | Anjay_2021/Anjay/demo/objects/binary_app_data_container.c:323-342 | empties just the Resource |
| `BinaryAppData.Container.TransactionBegin` | Anjay_2021/Anjay/demo/objects/binary_app_data_container.c:371-412 | the saved copy shows the same store and shares no node with the live one; it works exactly if there is memory for every Instance |
| `BinaryAppData.Container.TransactionCommit` | Anjay_2021/Anjay/demo/objects/binary_app_data_container.c:414-422 | keeps the live store and drops the copy |
| `BinaryAppData.Container.TransactionRollback` | Anjay_2021/Anjay/demo/objects/binary_app_data_container.c:424-434 | the live store is the saved one again |
| `BinaryAppData.TransactionRolledBack` | Anjay_2021/Anjay/demo/objects/binary_app_data_container.c:371-434 | any sequence of operations between begin and rollback, each of which has its full effect, is undone exactly; the transaction begins exactly if there is memory |
| `BinaryAppData.Perform` | Anjay_2021/Anjay/demo/objects/binary_app_data_container.c:136-342 | what each request makes of the store as a value; a request about an Instance that is not there changes nothing |
| `IoSched.Scheduler.InsertEntry` | Anjay_2021/Anjay/demo/iosched.c:100-110 | keeps instant entries before poll entries |
| `IoSched.Scheduler.PollEntryNew` | Anjay_2021/Anjay/demo/iosched.c:112-134 | an entry is made exactly if descriptor, events and handler are given and there is memory, and goes before the other poll entries |
| `IoSched.Scheduler.InstantEntryNew` | Anjay_2021/Anjay/demo/iosched.c:136-153 | an entry is made exactly if there are a handler and memory, and goes first |
| `IoSched.Scheduler.EntryRemove` | Anjay_2021/Anjay/demo/iosched.c:155-165 | takes out just that entry, and frees its argument |
| `IoSched.Scheduler.HandleInstantEntries` | Anjay_2021/Anjay/demo/iosched.c:167-181 | each instant entry runs once and is gone, and its argument is freed |
| `IoSched.Scheduler.GetPollFds` | Anjay_2021/Anjay/demo/iosched.c:183-200 | one descriptor per entry, in order: the assertion on the count holds |
| `IoSched.NextTurn` | Anjay_2021/Anjay/demo/iosched.c:222-235 | the next entry in the list is the first of those left, and only removed ones come before it |
| `IoSched.FoundDescriptor` | Anjay_2021/Anjay/demo/iosched.c:222-235 | the forward scan stops at the descriptor of the very entry whose turn it is |
| `IoSched.RoundStep` | Anjay_2021/Anjay/demo/iosched.c:222-235 | one turn leads from one state of the walk to the next, whatever the handler removes of what is still to come |
| `IoSched.StillCaused` | Anjay_2021/Anjay/demo/iosched.c:222-235 | after each turn, whatever has gone has a handler to blame that has been called |
| `IoSched.DispatchesMean` | Anjay_2021/Anjay/demo/iosched.c:222-235 | the calls of a round are those of the visited entries with nonzero events, each with its own events |
| `IoSched.AllCalled` | Anjay_2021/Anjay/demo/iosched.c:202-241 | so every entry that is left, or every entry if handlers remove only their own, has been called for what poll has answered, if that was anything, and nobody twice |
| `IoSched.Scheduler.HandlePollEntries` | Anjay_2021/Anjay/demo/iosched.c:202-241 | each entry still there when its turn comes is called once with what poll has answered for it; an entry goes only if a handler was called that may remove it, and its argument is freed once; without an answer nothing happens |
| `IoSched.Scheduler.Run` | Anjay_2021/Anjay/demo/iosched.c:243-246 | the same for a whole round, instant entries first; every poll entry that is left, or any if handlers remove only their own, has been called for what poll has answered |
| `IoSched.Live` | Anjay_2021/Anjay/demo/iosched.c:88-181 | over any life of a scheduler up to its release, no instant entry runs twice and every argument is freed exactly once |
| `SocketRefresh.Demo.CreateSocketEntry` | Anjay_2021/Anjay/demo/demo.c:520-544 | a socket entry together with its poll entry, exactly if the system descriptor is valid and there is memory, or neither; the poll entry is for that descriptor and for incoming data |
| `SocketRefresh.Demo.TearDownUntil` | Anjay_2021/Anjay/demo/demo.c:552-556 | tears down exactly the entries before the socket's |
| `SocketRefresh.Demo.Refresh` | Anjay_2021/Anjay/demo/demo.c:546-574 | survivors as the same objects, then new entries for exactly the sockets whose entries can be created; the scheduler holds exactly one poll entry per listed socket and its other entries as before; each new poll entry is for its socket's own descriptor; the list is exactly the reported sockets, in order, if and only if all that are new can be created |
| `SocketRefresh.SurvivorsAreOld` | Anjay_2021/Anjay/demo/demo.c:546-574 | the survivors are old entries in their old order |
| `SocketRefresh.InOrder` | Anjay_2021/Anjay/demo/demo.c:546-574 | the list is the reported sockets in order if and only if all creations succeed |
| `SocketRefresh.NothingTornDownNeedlessly` | Anjay_2021/Anjay/demo/demo.c:546-574 | if the new sockets are some of the old in order and then new ones, no entry of a remaining socket is torn down |
| `InputStream.InputContext.SomeBytes` | Anjay_2021/Anjay/src/core/anjay_io_core.c:235-245 | hands out the next bytes of the payload, at least one unless it is over or fails; it fails exactly where the context does, and announces the end with the last bytes or one call later |
| `InputStream.GetBytes` | Anjay_2021/Anjay/src/core/anjay_io_core.c:247-265 | works exactly if the context does not fail on the way; exactly the next min(buffer, remaining) bytes, however the context chops them |
| `InputStream.FetchBytes` | Anjay_2021/Anjay/demo/demo_utils.c:117-149 | works exactly if the context does not fail before the end and there is memory; the whole payload, also if it is empty or a multiple of the buffer |
| `UriPath.Length` | Anjay_2021/Anjay/src/anjay_modules/anjay_dm_utils.h:59-67 | the number of IDs before the terminator |
| `UriPath.Compare` | Anjay_2021/Anjay/src/anjay_modules/anjay_dm_utils.h:79-91 | compares what the arrays mean: whatever follows the terminator does not count |
| `UriPath.BeforeIsTotal` | Anjay_2021/Anjay/src/anjay_modules/anjay_dm_utils.h:79-91 | exactly one of before, equal and after |
| `UriPath.BeforeIsTransitive` | Anjay_2021/Anjay/src/anjay_modules/anjay_dm_utils.h:79-91 | the order is transitive |
| `UriPath.OutsideBase` | Anjay_2021/Anjay/src/anjay_modules/anjay_dm_utils.h:98-111 | exactly if the base is not a prefix |
| `UriPath.InsideIsIntervalEndingAtBase` | Anjay_2021/Anjay/src/anjay_modules/anjay_dm_utils.h:79-111 | the paths inside a base are an interval of the order with the base as its greatest element |
| `UriPath.Normalized` | Anjay_2021/Anjay/src/anjay_modules/anjay_dm_utils.h:118-127 | exactly if nothing but terminators follows the terminator |
| `UriPath.NormalFormIsUnique` | Anjay_2021/Anjay/src/anjay_modules/anjay_dm_utils.h:113-127 | normal arrays are equal if they mean the same |
| `QueryAttributes.RequestAttributes.ParseAttribute` | Anjay_2021/Anjay/src/core/anjay_core.c:329-367 | accepts exactly a valid value of an attribute not set yet, and sets just that |
| `QueryAttributes.ParseNullablePeriod` | Anjay_2021/Anjay/src/core/anjay_core.c:261-281 | rejects a duplicate and anything that is not a whole number or missing |
| `QueryAttributes.PeriodSegment` | Anjay_2021/Anjay/src/core/anjay_core.c:261-367 | the segments for the four periods, by name: the value as a signed 32-bit number, or -1 without one |
| `QueryAttributes.ThresholdSegment` | Anjay_2021/Anjay/src/core/anjay_core.c:283-367 | the segments for the three thresholds |
| `QueryAttributes.ConSegment` | Anjay_2021/Anjay/src/core/anjay_core.c:304-367 | con is 0, 1 or without a value, and nothing else |
| `QueryAttributes.NoOtherSegment` | Anjay_2021/Anjay/src/core/anjay_core.c:329-403 | no other name, no negative period, no threshold that is not a number and nothing of more than 255 characters is accepted |
| `QueryAttributes.EightNames` | Anjay_2021/Anjay/src/core/anjay_core.c:329-367 | which name stands for which attribute |
| `QueryAttributes.FieldsHold` | Anjay_2021/Anjay/src/core/anjay_core.c:329-367 | which field of the record holds which attribute |
| `QueryAttributes.ParseAttributes` | Anjay_2021/Anjay/src/core/anjay_core.c:369-403 | the loop with its early exit computes what the segments mean together |
| `QueryAttributes.AcceptedExactly` | Anjay_2021/Anjay/src/core/anjay_core.c:369-403 | accepted exactly if all segments are valid and name different attributes; then the record is what they say |
| `QueryAttributes.OrderDoesNotMatter` | Anjay_2021/Anjay/src/core/anjay_core.c:369-403 | permuting the segments changes neither the answer nor the record |
| `QueryAttributes.SameAttributesSameRecord` | Anjay_2021/Anjay/src/core/anjay_core.c:329-403 | the attributes set determine the whole record |
| `QueryAttributes.ParsePath` | Anjay_2021/Anjay/src/core/anjay_core.c:536-571 | accepts exactly the paths of valid segments that fit, and yields a normal array |

## Left out

- Sockets, CoAP exchanges, DTLS, files, processes and clocks: their results are parameters or arbitrary.
- Servers, observations, registration and the scheduling of reloads: they do not change what is modelled.
- Handlers of one Object that change another Object, and Objects that come or go while a transaction is open.
- Failures of the list and read handlers of application Objects during iteration; failures to allocate list elements.
- Access Control objects implemented by the application: the built-in one is assumed.
- The decision whether an action is allowed (`anjay_access_utils.c` 333-396) beyond the mask it rests on: a table over that mask.
- Persistence of Access Control and the functions by which an application edits ACLs directly.
- Bootstrap Discover, which changes nothing; content formats of Bootstrap Write, whose payload is a list of entries.
- `firmware_update_install` and the persistence of firmware state.
- Conversions from text to numbers: parameters of `QueryAttributes`, with the truncation to 32 bits written out.
- Handlers of the I/O scheduler that insert entries while the list is walked: the loops do not support it.
- The CoAP downloader: `BlockDownload` follows the HTTP one.
- BootstrapWrite.WriteObject: says about an Object in `partial` only which Instances can be reported, because a handler that fails in a way that is passed over may leave its Object in any shape.
- BootstrapDelete.DeleteObject: says about an Object in `fixed` only what happens to the queue, because a remove handler that answers 4.05 may still have changed its Object.
- BootstrapWrite.WriteResource: what is written is arbitrary contents, because no property here depends on it; whether a write to Access Control is accepted is therefore open.
- DataModel.Dm.Validate: the validation handlers of shaky Objects answer arbitrarily; that of Access Control is exact.
- AccessOutcome.FeasibleIsNeeded: where something is added, the conditions are proved sufficient only, because a new grant may take the ID of an instance that was written to and dropped.
- AccessSync.AccessControl.NotifyPerform: the callbacks of installed modules are assumed to leave the data model alone.
