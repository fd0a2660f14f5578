# Recovery and lifecycle protocols of specrails-desktop, in Dafny

The server of specrails-desktop keeps several things consistent across crashes, concurrent processes and
half-failed subprocesses: the shared Core framework and the workspaces assembled from it, a user's state
while it moves out of the repository, the shared artifact registry, and the Headroom proxy that provider
traffic may be routed through. This project models those protocols and proves what they are for, together
with the algorithmic kernels they rest on.

| file | models |
|---|---|
| `CoreUpdate.dfy` | publishing a Core version: pending record, `current`, markers, reassembly, and the launch gate |
| `FileTree.dfy`, `MigrationJournal.dfy`, `MigrationPlan.dfy`, `MigrationResume.dfy`, `MigrationRun.dfy` | the journaled migration of a repository-resident install, and what a resume can undo |
| `JsonTolerant.dfy`, `JsonWrapper.dfy`, `JsonSource.dfy`, `JsonReport.dfy` | the repair pass over JSON written by models, against a lexer and a grammar after sections 2 to 7 of RFC 8259; what surrounds a payload; what a whole source was meant to say; which repairs are reported |
| `RegistryLock.dfy` | the advisory lock of the artifact registry, any number of processes interleaved |
| `ArtifactRegistry.dfy` | registry entries: frozen identity, mirror, reconcile, restore, resolution |
| `HeadroomRouting.dfy`, `HeadroomLifecycle.dfy` | the proxy's runtime, its routing projection, and the user-facing operations on top |
| `HeadroomPids.dfy`, `HeadroomSavings.dfy` | socket ownership over the process table; the split of saved tokens |
| `FrameworkMigration.dfy` | turning copied framework subtrees into links, with backup, verification and revert |
| `FrameworkManager.dfy`, `SemverLite.dfy` | moving `framework/current` without downgrading; version order |
| `ExternalMcpSync.dfy`, `ProcessAdmission.dfy`, `XorStream.dfy`, `Slugs.dfy` | owned-key sync, generation leases, streaming XOR, slugs |

Code that works step by step is modelled as classes and methods with loops; each such method is proved
against a function or relation of values, and the theorems are about those. Where a crash or another process
can cut in, the durable writes are steps of a state machine: a crash keeps the disk and drops the rest, so
"crash anywhere, retry any number of times" is any sequence of guarded steps, and the methods are proved to
take guarded steps only. Outcomes of subprocesses, probes and file operations are inputs or chosen freely; a
`reliable` constant or a `calm` argument says that none of them fails, and progress is claimed under it.

What the proofs brought to light, where the code and its comments or promises part ways (the model follows
the code):

- While an update is pending, the launch gate lets an unfinished workspace through exactly when it is unmarked
  and one of its two reads fails: the status file cannot be read, or the version file is missing or cannot be
  read (`CoreUpdate.GateFailsExactly`, at disks: `CoreUpdate.UnreadStatusIsAdmitted`,
  `CoreUpdate.UnreadableRecordIsAdmitted`).
- A manager that cannot read its status file starts with nothing pending, and the next status it writes erases
  the record. The gate stays shut exactly when the file was read, nothing was pending, or no unfinished
  workspace relied on its version file alone (`CoreUpdate.RestartIsSafeExactly`, at a disk:
  `CoreUpdate.ForgottenUpdateIsAdmitted`).
- An update that is pending cannot be retried without naming a version once something newer, or another version of
  the same rank, has been published meanwhile: the retry is for the pending version and is refused exactly then
  (`CoreUpdate.RetryInterruptedUpdate`).
- Version comparison cuts a pre-release tag at its next hyphen, which semantic versioning allows inside
  identifiers: `5.0.0-rc-1` and `5.0.0-rc-2` compare as equal (`SemverLite.HyphenEndsTheTag`).
- The module header of the reseed says that `.mcp.json` can never be clobbered. The snapshot it is restored from
  lives in memory: after a crash the user's file comes through exactly when the last write before it, if any,
  wrote that file (`CoreUpdate.ReseedAfterCrash`, at a run: `CoreUpdate.CrashedAssembleTakesMcp`).
- A resumed migration can undo a move in two ways. Where a rename fails, the move is a copy and a recursive
  removal of the source; after half of that the resume clears the complete copy and moves what is left, though
  the comment says that the source goes only after copying succeeded (`MigrationResume.HalfRemovedProfileIsLost`).
  And while the workspace is unpopulated, as it may be when every provider failed, each resume assembles again
  over what has been moved. What an assemble writes over is the Core's affair; here it is a parameter, the places
  it seeds, and that it may overwrite those is an assumption (`MigrationResume.DefaultProfileIsLost`).
- State survives every schedule exactly when for every tree that is to be moved renames succeed or it is a single
  file, and the workspace is populated as the first journal is written or nothing of the tree lands in a seeded
  place (`MigrationResume.StateIsSafeExactly`); tickets, which are not seeded, meet the second condition
  (`MigrationResume.UnseededStateIsSafe`). Finished schedules agree exactly when the workspace is populated by
  then and renames succeed or all trees are single files (`MigrationResume.FinishedRunsAgreeExactly`).
- The migration's hard exclusions judge the path being removed, not what lies below it: whatever is inside a
  listed directory goes with it (`MigrationPlan.MigrationTakesListedDirectory`). And when the repository is the
  home directory, the final residue delete takes the moved state with it
  (`MigrationPlan.WorkspaceInsideResidueIsLost`).
- A release of the registry lock checks its token and unlinks in two steps. A reclamation between the two
  makes it take away the new owner's lock, contrary to the comment on `withFileLock`
  (`RegistryLock.LateUnlinkTakesNewLock`); outside that window it never does.
- A rollback restores the registry exactly when the mirrored entry has a core version. Otherwise the entry
  kept in memory has an `undefined` key that the file does not, and the strict comparison refuses
  (`ArtifactRegistry.RollbackUndoesExactly`).
- A reverted framework migration does not remove links that the re-link made where there was no copy. A later
  attempt answers that the workspace is already converted exactly when it left such a link
  (`FrameworkMigration.Workspace.RetryAfterRevert`, at a workspace:
  `FrameworkMigration.LinkedAgentsEndTheMigration`).
- The module says that it never deletes a user's file, but what an earlier run put under a backup or preserved
  name is replaced. A preserved directory survives a conversion exactly when the copy holds no custom agent
  or just what was preserved, and an earlier backup exactly when there is no copy in its place
  (`FrameworkMigration.Workspace.RunMigration`, at a workspace: `FrameworkMigration.EarlierAgentsAreLost`).
- A crash anywhere in a conversion loses nothing (`FrameworkMigration.ConvertWatched`), but the next run may: it
  takes a copy left by the interrupted assemble for a workspace to convert, and its backup replaces the one that
  holds the user's agents (`FrameworkMigration.CrashedRunThenRetry`).
- The rollback after a failed route verification in `activate` cannot happen: the check is about the settings
  written just before it (`HeadroomLifecycle.Lifecycle.ActivateLocked`).
- External-server sync is history independent exactly when no synced name was in the file to begin with, or
  the last list still has it (`ExternalMcpSync.HistoryIndependentExactly`). It writes the settings before its
  sidecar, so that after a crash between the two a name of the new list stays although disabled, exactly when
  nothing owned it before and no later sync lists it (`ExternalMcpSync.Settings.InterruptedThen`, for ever:
  `ExternalMcpSync.UnownedForEver`, at a file: `ExternalMcpSync.DisabledServerStays`).

## Model

| member | source | states |
|---|---|---|
| `CoreUpdate.AssertWorkspaceCoreReady` | server/core-update-state.ts:8-22 | The gate lets a workspace through exactly when it has no marker and, if the status file could be read and a version is pending, its version file is missing, unreadable or names that version; an empty one does not. |
| `CoreUpdate.AdmittedIsWhole` | server/core-update-state.ts:8-22 | In every state any crash and any number of retries can leave, an admitted workspace with a readable version has every provider surface whole at that version, and at the pending version if the gate could read that one is pending. |
| `CoreUpdate.UnreadableRecordIsAdmitted` | server/core-update-state.ts:12-18 | A disk at which the gate fails: an update is pending, and an unassembled workspace with a missing or unreadable version file is admitted, whether or not the status file could be read. |
| `CoreUpdate.GateFailsExactly` | server/core-update-state.ts:8-22 | In every state any crash and any number of retries can leave, a workspace that is not whole at the pending version is admitted exactly when it is unmarked and the status file cannot be read, or its version file is missing or unreadable. |
| `CoreUpdate.UnreadStatusIsAdmitted` | server/core-update-state.ts:12-18 | Another: a published update, a workspace still at the version before, and a gate that cannot read the status file. |
| `CoreUpdate.RestartIsSafeExactly` | server/core-update-manager.ts:115-127 | In every such state the first status a restarted manager writes opens the gate on no unfinished workspace exactly when its status file was read, nothing was pending, or every unfinished workspace is marked or has no readable version file. |
| `CoreUpdate.ForgettingOpensExactly` | server/core-update-manager.ts:123-127 | Erasing the pending record opens the gate on an unfinished workspace exactly when it is unmarked and its version file holds another version or nothing. |
| `CoreUpdate.ForgottenUpdateIsAdmitted` | server/core-update-manager.ts:115-127 | A disk at which a manager that could not read its status file opens the gate on a workspace of the version before. |
| `CoreUpdate.PendingClearedOnlyWhenDone` | server/core-update-manager.ts:316-325 | The pending record disappears only in a state where every registered workspace is at the pending version without a marker, unpopulated, or has no provider directory. |
| `CoreUpdate.ChangeKeepsSettled` | server/framework-reseed.ts:131-180 | Each write inside a workspace that the protocol may make keeps "unmarked and recorded means whole at the recorded version". |
| `CoreUpdate.StepKeepsSettled` | server/core-update-manager.ts:284-325 | Every durable step keeps that invariant for all workspaces. |
| `CoreUpdate.RunKeepsSettled` | server/core-update-manager.ts:284-325 | So does every run of such steps. |
| `CoreUpdate.CrashAndRetry` | server/core-update-manager.ts:115-127 | A retry from whatever a crash left is again a run of the protocol from the beginning. |
| `CoreUpdate.Store.Do` | server/framework-reseed.ts:87-91 | A durable write is taken only under its guard, and extends the log that the safety theorems are about. |
| `CoreUpdate.BeginAssemble` | server/framework-reseed.ts:93-105 | From its first moment an install has its surface in pieces, and perhaps another `.mcp.json`, and nothing else changed. |
| `CoreUpdate.AssembleProvider` | server/framework-reseed.ts:93-105 | One provider's install, successful or not: other surfaces keep their versions, and only a success leaves this surface whole with the version recorded. |
| `CoreUpdate.Assemble` | server/framework-reseed.ts:93-105 | Over all providers, continuing past failures: reported success means every surface is whole at the recorded version. |
| `CoreUpdate.MarkStale` | server/framework-reseed.ts:82-91 | Afterwards every project not reported as unmarkable is up to date, unpopulated or marked, and nothing but markers changed. |
| `CoreUpdate.MarkOne` | server/framework-reseed.ts:87-90 | One marker, written or not; nothing else in the workspace or outside it changes. |
| `CoreUpdate.ReportGrows` | server/framework-reseed.ts:107-180 | Handling one more project keeps the report true of the disk, even when two projects share a workspace. |
| `CoreUpdate.NeededOnlyGrows` | server/framework-reseed.ts:107-123 | A project that needed no refresh is reported as neither refreshed nor failed, and no later one disturbs it. |
| `CoreUpdate.FullReportGrows` | server/framework-reseed.ts:107-182 | Both, and that no workspace is reported as refreshed which could not be marked. |
| `CoreUpdate.RefreshWorkspace` | server/framework-reseed.ts:124-179 | A refresh reported as done leaves the workspace whole at the version, its declared runtime installed, unmarked, with its `.mcp.json` as before; any other outcome keeps it marked or untouched. |
| `CoreUpdate.ReseedOne` | server/framework-reseed.ts:107-180 | A project without an error needs no further refresh; one that needed none is left alone; it is reported as refreshed exactly when it needed a refresh and there was no error. |
| `CoreUpdate.ReseedEach` | server/framework-reseed.ts:107-182 | The second loop: its report holds whatever the order and repetitions of projects, and no workspace that could not be marked is refreshed. |
| `CoreUpdate.ReseedStaleWorkspaces` | server/framework-reseed.ts:72-182 | One result per project, in order; no error means done; projects that needed nothing are reported neither way; workspaces never reported with an error keep `.mcp.json`; workspaces of no project are untouched; all markers are written before anything else is. |
| `CoreUpdate.ReseedAfterCrash` | server/framework-reseed.ts:10-13 | A pass after a crash, where it reports no error and finds the file: it ends with the user's own `.mcp.json` exactly when the last write of that file before the crash, if any, wrote it. |
| `CoreUpdate.McpIsLastWritten` | server/framework-reseed.ts:124-163 | After any run `.mcp.json` is what its last write left, or what it was. |
| `CoreUpdate.CrashedAssembleTakesMcp` | server/framework-reseed.ts:124-140 | A run after which it is not: it crashes inside an assemble that has rewritten the file. |
| `CoreUpdate.CoreUpdateManager.constructor` | server/core-update-manager.ts:104-128 | A restarted manager remembers the pending update the disk records if the status file reads back, and otherwise none, which agrees with the disk only if none is pending. |
| `CoreUpdate.CoreUpdateManager.PersistStatus` | server/core-update-manager.ts:351-360 | The record on disk becomes the one in memory, or stays as it was; legal only if that does not erase an unfinished update. |
| `CoreUpdate.CoreUpdateManager.Publish` | server/core-update-manager.ts:284-314 | `current` moves only once the version is materialized and its pending record is on disk, never down; a success leaves both at the version. |
| `CoreUpdate.CoreUpdateManager.UpdateLocked` | server/core-update-manager.ts:232-331 | The guarded body: a package that is no good or does not materialize changes nothing; success means every registered workspace is done and nothing is pending in memory or on disk. |
| `CoreUpdate.CoreUpdateManager.CheckRequest` | server/core-update-manager.ts:204-222 | The checks up front, and which of the three versions is chosen, trimmed and without leading `v` or `=`. |
| `CoreUpdate.CoreUpdateManager.GoThrough` | server/core-update-manager.ts:224-343 | The try block with what catches: an error that leaves a version pending is recorded, and the manager is ready for another update. |
| `CoreUpdate.CoreUpdateManager.Update` | server/core-update-manager.ts:204-349 | Refused exactly when an update is running, the bundle is unavailable, there is no version to go to or not one that can be installed, or what is published is neither older nor the same with a broken runtime or its own update pending; then nothing moves. Otherwise the version is the caller's, else the pending one, else the latest; success publishes it with every registered workspace done and nothing pending, failure stays visible, and with a good package that materializes and no failing operation it succeeds. |
| `CoreUpdate.RetryInterruptedUpdate` | server/core-update-manager.ts:115-127 | At any disk that a crash can leave with a version pending, a restarted manager's retry is for that version, is refused exactly when something else not older is published, never when it is published itself, and with a good package and no failing operation ends with nothing pending and every workspace with providers unmarked and whole at it. |
| `CoreUpdate.CrashedReseedIsPending` | server/core-update-manager.ts:302-316 | A crash between the swap and the end of the reseed leaves the new version both published and pending, so that the retry is not refused. |
| `SemverLite.OrderIsTotalPreorder` | server/semver-lite.ts:69-81 | Version comparison is antisymmetric, reflexive and transitive on all strings, so "newer" is a strict order. |
| `SemverLite.IdentsOrderLaws` | server/semver-lite.ts:40-66 | The same for pre-release identifier lists, numeric ones below the others, prefixes first. |
| `SemverLite.ParsedOrderLaws` | server/semver-lite.ts:69-76 | The same for parsed versions, a pre-release below its release. |
| `SemverLite.ComparePrerelease` | server/semver-lite.ts:40-66 | The loop over identifiers computes that order. |
| `SemverLite.CleanedDrops` | server/semver-lite.ts:22-25 | White space around a version and any `v` or `=` in front of it make no difference. |
| `SemverLite.TaggedIsParsed` | server/semver-lite.ts:21-38 | A version written as three numbers and a tag is read back: the numbers, and the identifiers up to the first hyphen of the tag. |
| `SemverLite.BuildIsIgnored` | server/semver-lite.ts:25 | Build metadata makes no difference. |
| `SemverLite.ShortIsPadded` | server/semver-lite.ts:28-37 | Numbers that are missing count as zero. |
| `SemverLite.WordsAreZero` | server/semver-lite.ts:29-37 | A text of letters alone ranks with 0.0.0. |
| `SemverLite.NewerByNumbers` | server/semver-lite.ts:69-81 | Of two written versions with different numbers the one with the greater major, then minor, then patch number is newer, whatever the tags: 1.10.0 over 1.9.0. |
| `SemverLite.ReleaseIsNewer` | server/semver-lite.ts:41-44 | A release is newer than each of its pre-releases, and not the other way round. |
| `SemverLite.LastIdentDecides` | server/semver-lite.ts:45-66 | Tags that differ in their last identifier compare as these do, and a tag is older than itself with one identifier more. |
| `SemverLite.IdentsByKind` | server/semver-lite.ts:50-63 | Numeric identifiers compare by value and are older than words; words compare at the first letter that differs. |
| `SemverLite.HyphenEndsTheTag` | server/semver-lite.ts:26 | Versions whose tags differ only after a hyphen compare as equal. |
| `SemverLite.TaggedIsInstallable` | server/core-package.ts:5-9 | Of the written versions exactly those of majors 4, 5 and 6 can be installed. |
| `SemverLite.InstallableIsClean` | server/core-update-manager.ts:211-217 | A version that can be installed is as cleaning leaves it, so the pending one is asked for again as it was recorded. |
| `MigrationJournal.AttemptIsHarmless` | server/legacy-migration.ts:221-235 | Redoing an entry after any interrupted, failed or unjournaled attempt has the effect it would have had without the attempt. |
| `MigrationJournal.StepKeepsOutcome` | server/legacy-migration.ts:339-365 | No attempt and no journaling changes where the remaining entries will take the disk. |
| `MigrationJournal.NeverReassembles` | server/legacy-migration.ts:272-293 | A schedule that starts with the workspace populated keeps it so, and none of its resumes assembles. |
| `MigrationJournal.NeverDisturbed` | server/legacy-migration.ts:221-235 | A schedule is such a one when it starts with the workspace populated, and renames succeed or every moved tree is a single file. |
| `MigrationJournal.RunKeepsOutcome` | server/legacy-migration.ts:257-370 | Nor does any schedule of crashes, failures and resumes in which no resume assembles and no source is left half removed. |
| `MigrationJournal.FinishedRunsAgree` | server/legacy-migration.ts:257-370 | Every such schedule that gets all entries journaled ends in the file system of the uninterrupted run. |
| `MigrationJournal.StepKeepsInPlace` | server/legacy-migration.ts:221-244 | A step keeps each planned tree whole: journaled moves arrived, later ones not left, the current one at one end. |
| `MigrationJournal.StateIsNeverLost` | server/legacy-migration.ts:257-370 | At every point of every such schedule each moved tree is whole at its source or its destination. |
| `MigrationJournal.GoneIffDeleted` | server/legacy-migration.ts:344-346 | Outside the moved trees a path is gone at the end exactly when a delete entry contains it. |
| `MigrationJournal.ArrivedIffSpared` | server/legacy-migration.ts:339-365 | A finished migration has carried every planned tree over exactly when no delete entry reaches into one. |
| `MigrationJournal.SourceIsGone` | server/legacy-migration.ts:221-235 | What is moved is no longer where it was when the plan is finished. |
| `MigrationJournal.CopiedThenRemoved` | server/legacy-migration.ts:228-234 | The cross-device fallback, copy then remove, does what the rename would have done. |
| `MigrationJournal.CanFinish` | server/legacy-migration.ts:339-370 | From any state some schedule finishes the plan with the effects of what is left of it. |
| `MigrationPlan.PlanStateMoves` | server/legacy-migration.ts:202-219 | Both loops together plan a move for every place of state that exists, and for nothing else, to the same place of the workspace. |
| `MigrationPlan.BuildCleanupManifest` | server/legacy-migration.ts:126-173 | A path is listed exactly when it is an existing, unprotected candidate, and listed once. |
| `MigrationPlan.ManifestShape` | server/legacy-migration.ts:126-135 | Nothing listed is protected or outside the repository. |
| `MigrationPlan.ManifestComplete` | server/legacy-migration.ts:126-135 | Every existing, unprotected candidate is listed. |
| `MigrationPlan.ManifestListsOnce` | server/legacy-migration.ts:126-135 | No path is listed twice, whatever repetitions there are among the candidates. |
| `MigrationPlan.ManifestExactly` | server/legacy-migration.ts:126-173 | The manifest lists exactly the existing, unprotected candidates. |
| `MigrationPlan.MovesForShape` | server/legacy-migration.ts:202-219 | The planned moves go from distinct places that exist in the repository to the same places of the workspace. |
| `MigrationPlan.StateIsAllMoved` | server/legacy-migration.ts:202-219 | Every existing `.specrails` state entry and every existing provider memory gets a move, before the residue delete takes what is left. |
| `MigrationPlan.PlanIsSound` | server/legacy-migration.ts:306-330 | With repository and workspace apart, the plan's moves are apart from each other and its deletes spare what they carry. |
| `MigrationPlan.PlanKeepsMarker` | server/legacy-migration.ts:306-330 | No entry of a project's plan touches the file by which its workspace counts as populated. |
| `MigrationPlan.MigrationIsSafe` | server/legacy-migration.ts:257-370 | The whole migration, for every schedule that starts with the workspace populated, where renames succeed or all moved trees are single files: no planned tree is ever lost, and a finished one has moved them all and left what an uninterrupted run leaves. |
| `MigrationPlan.UserFilesAreNotListed` | server/legacy-migration.ts:175-189 | Whatever the candidates, no plan deletes a path outside the repository, in `openspec/`, in a worktree, or one named as a user's file: the instruction and settings files, `.mcp.json`, `custom-` and `openspec` names. |
| `MigrationPlan.FrameworkFilesAreListed` | server/legacy-migration.ts:94-98 | An existing candidate in a provider's directory with an `sr-` or `specrails-` name is deleted. |
| `MigrationPlan.PlanCarriesOver` | server/legacy-migration.ts:193-219 | A plan carried out leaves profiles, tickets, backlog configuration, state, file summaries, plugins and every provider's memory whole at the same place of the workspace and nowhere else, and nothing below `.specrails` in the repository. |
| `MigrationPlan.PlanCleansUp` | server/legacy-migration.ts:305-331 | And of the rest of the repository exactly what cleanup lists is gone, with all below it; `.mcp.json` has lost the owned keys only, where a plugin owns any; all else is as it was. |
| `MigrationPlan.PlanLeavesRest` | server/legacy-migration.ts:305-331 | A path that is neither state, nor listed or below something listed, nor below `.specrails`, nor `.mcp.json` is there exactly if it was, with its content. |
| `MigrationPlan.PlanStripsMcp` | server/legacy-migration.ts:321-330 | `.mcp.json` stays, stripped of the owned keys exactly where a plugin owns any. |
| `MigrationPlan.CleanedIsGone` | server/legacy-migration.ts:344-346 | Everything below a listed path goes, unless it is state on its way to the workspace. |
| `MigrationPlan.MigrationLeavesOpenspec` | server/legacy-migration.ts:176-189 | A finished migration of a project leaves everything below its `openspec/` byte for byte. |
| `MigrationPlan.MigrationTakesListedDirectory` | server/legacy-migration.ts:149-154 | Protection is judged by the listed path: everything inside a listed directory of the project goes, protected names included. |
| `MigrationPlan.WorkspaceInsideResidueIsLost` | server/legacy-migration.ts:313-320 | With the workspace inside the repository's `.specrails`, a migration with any state to move finishes without it. |
| `MigrationResume.StateIsSafeExactly` | server/legacy-migration.ts:221-293 | No schedule loses anything of a planned tree exactly when, for each, the workspace is populated as the first journal is written or nothing of it lands in a place that an assemble seeds, and renames succeed or it is a single file. |
| `MigrationResume.FinishedRunsAgreeExactly` | server/legacy-migration.ts:221-293 | All finished schedules leave what an uninterrupted run leaves exactly when the workspace is populated as the first journal is written, and renames succeed or all moved trees are single files. |
| `MigrationResume.ReassemblyLoses` | server/offline-assemble.ts:260-289 | Otherwise a crash after the move of such a tree and a resume whose assemble writes a default there leave it whole at neither end. |
| `MigrationResume.ReassemblyDiffers` | server/offline-assemble.ts:260-289 | A resume that populates the workspace after all finishes elsewhere than the uninterrupted run. |
| `MigrationResume.ReassemblyKeepsHeld` | server/legacy-migration.ts:272-293 | An assemble keeps in place every tree of which nothing lands where it writes. |
| `MigrationResume.PartKeepsHeld` | server/legacy-migration.ts:226-235 | A half removal keeps every other tree in place, and a single file cannot be removed in half. |
| `MigrationResume.InvulnerableIsKept` | server/legacy-migration.ts:257-370 | At every point of every schedule a tree that no resume can undo is whole at one of its ends, with perhaps more beside it. |
| `MigrationResume.PartRemovalLoses` | server/legacy-migration.ts:226-235 | Any other tree is lost where renames fail: a removal stops after some file of it, and the resume moves the rest over the complete copy. |
| `MigrationResume.PartRemovalDiffers` | server/legacy-migration.ts:339-370 | And that schedule finishes elsewhere than the uninterrupted run. |
| `MigrationResume.HalfRemovedProfileIsLost` | server/legacy-migration.ts:221-235 | A repository with one profile, a populated workspace where renames fail, and the run that loses the profile. |
| `MigrationResume.UnseededStateIsSafe` | docs/internals/bundled-framework-build-plan.md:76 | Where renames succeed, state in places that no assemble seeds, such as tickets, survives every schedule, populated workspace or not. |
| `MigrationResume.DefaultProfileIsLost` | server/legacy-migration.ts:221-225 | A repository whose only state is its default profile, an unpopulated workspace, assembles that seed a default profile, and the run that loses the user's. |
| `MigrationRun.Machine.WriteJournal` | server/legacy-migration.ts:239-244 | The journal is replaced as a whole or not at all, and never runs ahead of the effects. |
| `MigrationRun.Machine.MoveOverwriting` | server/legacy-migration.ts:221-235 | Clear, rename, or copy across devices: each outcome is a step of the schedule, and success leaves nothing at the source. |
| `MigrationRun.Machine.CopyAcross` | server/legacy-migration.ts:228-234 | The source is removed only after a complete copy. |
| `MigrationRun.Machine.RenameOrCopy` | server/legacy-migration.ts:226-234 | The rename, or where it fails the copy across devices. |
| `MigrationRun.Machine.Spoil` | server/legacy-migration.ts:225-232 | A clear or a copy that fails spoils the destination only. |
| `MigrationRun.Machine.RemoveSource` | server/legacy-migration.ts:233 | The removal of the copied source goes through, or leaves any part of it, which is a step of the schedule. |
| `MigrationRun.Machine.Copy` | server/legacy-migration.ts:229-232 | A complete copy leaves the source whole and the destination its copy. |
| `MigrationRun.Machine.Replace` | server/legacy-migration.ts:222-227 | Whatever lands at the destination, the source stays whole. |
| `MigrationRun.Machine.Perform` | server/legacy-migration.ts:341-350 | A reported success leaves the entry nothing to do; a protected path is refused with the disk unchanged. |
| `MigrationRun.Machine.ExecuteEntry` | server/legacy-migration.ts:339-365 | One turn of the loop: act, record as executed, or record the failure at its entry and stop. |
| `MigrationRun.Machine.Execute` | server/legacy-migration.ts:339-370 | The loop extends the schedule; the executed entries are a prefix; `Migrated` means all of them, and `Halted` that an entry is on record as failed; when no operation fails it ends where the remaining entries lead. |
| `MigrationRun.Machine.Begin` | server/legacy-migration.ts:296-331 | The first journal lists the whole plan, nothing executed. |
| `MigrationRun.Machine.Assemble` | server/legacy-migration.ts:272-293 | Assembles only into an unpopulated workspace, leaves the repository and every place it does not seed alone, and while a journal is unfinished is a step of its schedule. |
| `MigrationRun.Machine.Start` | server/legacy-migration.ts:296-370 | A fresh schedule is one of the assembled project's plan, and begins with its journal on disk; when no operation fails it leaves what the plan's entries make of the disk. |
| `MigrationRun.Machine.Resume` | server/legacy-migration.ts:260-293 | A resume assembles first if the workspace is unpopulated and goes on with the schedule; when no operation fails it finishes where the interrupted run would have. |
| `MigrationRun.Machine.MigrateFresh` | server/legacy-migration.ts:268-370 | A first run; when no operation fails all state of the repository is in the workspace and the repository is cleaned up. |
| `MigrationRun.Machine.MigrateProject` | server/legacy-migration.ts:257-370 | Skipped exactly when there is nothing to resume and the repository has no installed version or the workspace is populated. A resume continues the interrupted schedule, assembling first if the workspace is unpopulated; a fresh run starts one for the assembled project's plan. When no operation fails, an install in the repository ends migrated, with all its state at the same places of the workspace, `.specrails` gone, exactly what cleanup lists deleted, and the rest of the repository as it was. |
| `MigrationRun.PlanProject` | server/legacy-migration.ts:306-331 | The journal lists moves, then the manifest, the residue and the MCP edit. |
| `JsonTolerant.LexerAgrees` | server/json-tolerant.ts:65-156 | A strict string scanner over the output enters and leaves strings exactly where the machine did, and recovers exactly the pieces it wrote. |
| `JsonTolerant.EscapesAreLegal` | server/json-tolerant.ts:70-87 | Every escape the scanner meets starts with a legal escape character, and no newline is raw inside a string. |
| `JsonTolerant.RawControlIffEscaped` | server/json-tolerant.ts:81-122 | A raw control character is inside a string of the output exactly when the source has a backslash directly before a control character other than newline there. |
| `JsonTolerant.NoEscapedControls` | server/json-tolerant.ts:81-122 | Hence none at all when the source has no such pair. |
| `JsonTolerant.AdvanceTakesPrefix` | server/json-tolerant.ts:67-156 | Every turn consumes at least one character and leaves a suffix, so the index is a measure. |
| `JsonTolerant.CopiesValue` | server/json-tolerant.ts:65-156 | Every RFC 8259 value, with any nesting and white space, comes out unchanged, whatever follows it. |
| `JsonTolerant.CopiesElements` | server/json-tolerant.ts:65-156 | The same for array elements. |
| `JsonTolerant.CopiesMembers` | server/json-tolerant.ts:65-156 | The same for object members. |
| `JsonTolerant.ValidObjectIsUnchanged` | server/json-tolerant.ts:39-159 | A valid object text is returned unchanged with no repairs. |
| `JsonTolerant.ValidOutputIsFixed` | server/json-tolerant.ts:39-159 | A repaired output that is a valid object text is a fixed point of repair. |
| `JsonTolerant.LookAhead` | server/json-tolerant.ts:89-93 | The index loop finds the next character that is not white space, if any. |
| `JsonTolerant.TurnInside` | server/json-tolerant.ts:69-125 | One turn inside a string adds, consumes and records what the specification's turn does. |
| `JsonTolerant.TurnBeyond` | server/json-tolerant.ts:127-155 | One turn outside strings likewise, comments by `indexOf`. |
| `JsonTolerant.SkipComment` | server/json-tolerant.ts:143-154 | The index lands where the specification's comment ends. |
| `JsonTolerant.RepairJsonText` | server/json-tolerant.ts:39-159 | The whole loop returns the specification's text and repairs, of which `JsonWrapper` says what they are run on, `JsonSource` what they say and `JsonReport` which are reported. |
| `JsonWrapper.WrappedObjectIsFound` | server/json-tolerant.ts:39-64 | A valid object, in any prose without braces and backticks, between fences on lines of their own or on one side only, with or without a name, comes out as it is; fence and prose, each exactly when there is one, are what is reported. |
| `JsonWrapper.WrappedIsFound` | server/json-tolerant.ts:39-64 | The same slice is found for any text in braces, valid or not. |
| `JsonWrapper.FencedIsFound` | server/json-tolerant.ts:42-55 | A payload without braces is found between its fences. |
| `JsonWrapper.PreparedIsWrapped` | server/json-tolerant.ts:39-64 | For every source the text scanned is a slice of it; around it there is only white space, fence lines, and prose without an opening brace before the slice or a closing one after it, and prose is cut only off a slice in braces; each is reported exactly when it is there. |
| `JsonReport.ReportsExactly` | server/json-tolerant.ts:65-156 | For every source each other kind of repair is reported exactly when its cause is in the payload: a trailing comma, a comment, or in some string a bare line end, another bare control character, an inner quotation mark, a backslash before no escape, or one at the end. |
| `JsonReport.StringReports` | server/json-tolerant.ts:69-125 | From inside a string, a repair is reported for its body or for what comes after it. |
| `JsonReport.TextReports` | server/json-tolerant.ts:65-156 | The same over all segments of a text. |
| `JsonSource.RepairKeepsMeaning` | server/json-tolerant.ts:65-156 | For every source, a strict reader of the output meets, in order, exactly the characters outside strings less trailing commas and comments, and the strings, each with the codes its body was meant to hold; and the segments this is said of cover the source. |
| `JsonSource.SegmentsCover` | server/json-tolerant.ts:65-156 | Kept characters, dropped commas, dropped comments and strings put together are the source. |
| `JsonSource.SegmentsAreWritten` | server/json-tolerant.ts:65-156 | The whole pass writes each kept character as it is, nothing for a dropped one, and each string as its units. |
| `JsonSource.BodyIsWritten` | server/json-tolerant.ts:69-125 | The pass ends a string where its body ends and writes the units of the whole body. |
| `JsonSource.UnitsDecode` | server/json-tolerant.ts:69-125 | A strict reader of what is written for a body gets its codes back, `\u` escapes with their digits included. |
| `JsonSource.TokensAreIntended` | server/json-tolerant.ts:65-156 | Read back, the whole output says what the segments were meant to say. |
| `JsonTolerant.TurnKeepsMeaning` | server/json-tolerant.ts:69-125 | What one repaired string character decodes to is what the source character meant. |
| `RegistryLock.WritersAreSerialized` | server/artifact-registry.ts:336-418 | In every state of every interleaving in which no lock file outlives the TTL: at most one acquisition is between create and release, it owns the file, what it read is current, and the registry is the fold of the committed bodies in lock order. |
| `RegistryLock.LiveWritersAreSerialized` | server/artifact-registry.ts:306-418 | The same with crashes: any acquisitions may stop for ever at any point and their lock files be reclaimed; if each other one, while inside, creates, signs or heartbeats its file at least every 30 seconds, at most one of these is inside, it owns the file, what it read is current, and the registry is the fold of the committed bodies in lock order. |
| `RegistryLock.LiveIsNotStale` | server/artifact-registry.ts:311-334 | A lock file that its owner touches in time is never stale, whatever other processes do. |
| `RegistryLock.OnlyTheDeadAreInside` | server/artifact-registry.ts:363-371 | Whenever a lock file can be reclaimed, nobody but crashed acquisitions is inside. |
| `RegistryLock.BuriedStep` | server/artifact-registry.ts:336-418 | Each file operation of the others keeps order and exclusion among them. |
| `RegistryLock.StepKeepsOrder` | server/artifact-registry.ts:336-418 | Each file operation of each process keeps that invariant. |
| `RegistryLock.CreateKeepsOrder` | server/artifact-registry.ts:350-360 | Exclusive create lets in one acquisition only, last in the order. |
| `RegistryLock.CommitKeepsOrder` | server/artifact-registry.ts:258-300 | The rename commits one more body to the fold. |
| `RegistryLock.UnlinkKeepsOrder` | server/artifact-registry.ts:406-411 | A release empties the critical section. |
| `RegistryLock.SinceTheCheck` | server/artifact-registry.ts:406-411 | After its check an acquisition owns the lock file that is there exactly as long as none was created. |
| `RegistryLock.ReleaseTakesOwnLock` | server/artifact-registry.ts:396-416 | With reclamation allowed, every release takes away its own lock file only, reclaimed before its check or not, unless a reclamation falls between its check and its unlink. |
| `RegistryLock.ForeignUnlinkExactly` | server/artifact-registry.ts:406-416 | A release takes away another acquisition's file exactly when a file is there at its unlink and one was created since its check. |
| `RegistryLock.LateUnlinkTakesNewLock` | server/artifact-registry.ts:341-344 | A run in which that happens and lets a third process in beside the new owner. |
| `ArtifactRegistry.IsCompleteEntry` | server/artifact-registry.ts:187-214 | The loop over the required fields answers whether each is present and non-empty. |
| `ArtifactRegistry.NormalProviders` | server/artifact-registry.ts:443-453 | The list is never empty, and without a named primary the first of it is primary. |
| `ArtifactRegistry.UpsertFreezesIdentity` | server/artifact-registry.ts:473-538 | A complete entry keeps every path field; any other becomes complete exactly when its own slug or the desired one is non-empty, and then lives where that slug says. |
| `ArtifactRegistry.ReconcileKeeps` | server/artifact-registry.ts:758-801 | A reconcile changes no key outside its list and keeps identity on those in it. |
| `ArtifactRegistry.OpKeeps` | server/artifact-registry.ts:555-593 | The same for one mirror or reconcile as saved to disk. |
| `ArtifactRegistry.IdentityIsFrozen` | server/artifact-registry.ts:455-472 | Over any sequence of mirrors and reconciles a slug never changes once there is one, nor a complete entry's paths. |
| `ArtifactRegistry.TouchedBecomesComplete` | server/artifact-registry.ts:485-507 | Any repository that one of the operations names ends up complete, under its own slug if it carried one. |
| `ArtifactRegistry.UpsertIsExact` | server/artifact-registry.ts:443-538 | One upsert, but for the path fields: providers, primary, version and project id are what is given, else what the entry had, else `claude` or the named primary and no version; the install time is a mirror's time and untouched by a reconcile; creation time and unknown keys are never changed. |
| `ArtifactRegistry.LastGivenCounts` | server/artifact-registry.ts:509-538 | Over any sequence of mirrors and reconciles each of these ends as the last write that gives it left it, or as it was if none does. |
| `ArtifactRegistry.WritesLeaveRest` | server/artifact-registry.ts:509-538 | What no write gives stays, over any number of them. |
| `ArtifactRegistry.LastWord` | server/artifact-registry.ts:509-538 | What a write gives and no later one does stands at the end. |
| `ArtifactRegistry.AfterIsWritten` | server/artifact-registry.ts:555-593 | Operations on the file are their upserts one by one, though a reconcile saves once. |
| `ArtifactRegistry.ReconcileIsIdempotent` | server/artifact-registry.ts:758-801 | Reconciling again at the same timestamp changes nothing, even with repeated keys and incomplete entries. |
| `ArtifactRegistry.ReconciledCarriesOverlay` | server/artifact-registry.ts:764-794 | With repeated keys the last explicit providers, version and project id win. |
| `ArtifactRegistry.ReconcileOverlays` | server/artifact-registry.ts:764-794 | A list applied to a settled entry is one overlay, whatever its order and repetitions. |
| `ArtifactRegistry.RollbackUndoesExactly` | server/artifact-registry.ts:709-735 | After any saves, removals and rollbacks of other keys, a rollback leaves the project map as those alone would have, exactly when the mirrored entry has a core version; otherwise it refuses and the new entry stays. |
| `ArtifactRegistry.InterveningWriteWins` | server/artifact-registry.ts:722-726 | If anything wrote or removed the entry in between at another time, another program included, the rollback changes nothing, whatever else happened before or after that. |
| `ArtifactRegistry.ResolutionIsStable` | server/artifact-registry.ts:649-692 | A repository resolves to relocated artifacts exactly when its entry is complete, and then to the same places for ever. |
| `ArtifactRegistry.RegisteredResolvesUnderItsSlug` | server/artifact-registry.ts:151-181 | A fresh registration resolves, whatever happens afterwards, to its slug's workspace below the home directory, tickets, backlog configuration, profiles, plugins, file summaries and runtime state each at its own place there. |
| `ArtifactRegistry.UnregisteredResolvesInTheRepository` | server/artifact-registry.ts:649-676 | Without a complete entry a repository resolves into itself, each kind of state at its own legacy place. |
| `ArtifactRegistry.Registry.MirrorProjectEntryWithPrevious` | server/artifact-registry.ts:555-593 | The entry is exactly what the input gives and otherwise what it was, its paths kept if complete, and no other entry changes; the entry it replaced is returned, none for a file of a later schema. |
| `ArtifactRegistry.Registry.Write` | server/artifact-registry.ts:586-590 | What is read back is what was written, less the `undefined` keys. |
| `ArtifactRegistry.Registry.RemoveRegistryEntry` | server/artifact-registry.ts:695-707 | One key goes; an absent one leaves the file untouched. |
| `ArtifactRegistry.Registry.RestoreRegistryEntry` | server/artifact-registry.ts:712-735 | Restores exactly over the expected entry, and that entry only; refusing leaves the file untouched. |
| `ArtifactRegistry.Registry.ReconcileFromProjects` | server/artifact-registry.ts:758-801 | The loop of upserts writes once, the fold of its list; an empty list does not write. |
| `HeadroomRouting.RoutedExactly` | server/headroom-manager.ts:2481-2494 | In every reachable state routing calls for a provider exactly when shutdown has not begun, the owned child is alive, the trusted port is the persisted one and the envelope enables it; and then that child was confirmed to own that port, with no stop, other start, shutdown, exit or error of it since. |
| `HeadroomRouting.Drive` | server/headroom-manager.ts:2481-2494 | The same of the stored routing field, after a manager has handled any sequence of events; the envelope counts in its version and source only, and a port that is none stands for 8787. |
| `HeadroomRouting.TrustIsRecent` | server/headroom-manager.ts:1753-1762 | A trusted port was confirmed for the held child, and nothing since has spoken against it. |
| `HeadroomRouting.SoundThroughout` | server/headroom-manager.ts:1632-1763 | In every reachable state, with any number of starts in flight, a held proxy is alive and a trusted port was confirmed for it. |
| `HeadroomRouting.StepKeepsSound` | server/headroom-manager.ts:1676-1762 | Each stretch between awaits, each exit, stop and settings write keeps that. |
| `HeadroomRouting.NothingRoutedAfterShutdown` | server/headroom-manager.ts:2314-2320 | Once shutdown has begun nothing is routed, whatever still unwinds. |
| `HeadroomRouting.TrustedStartWasCurrent` | server/headroom-manager.ts:1729-1762 | A start that ends in trust met no stop, no other start and no shutdown on the way, and trusts the port it began with. |
| `HeadroomRouting.Manager.UpdatePersisted` | server/headroom-manager.ts:2441-2449 | A settings write changes the settings and re-derives routing. |
| `HeadroomRouting.Manager.constructor` | server/headroom-manager.ts:832-851 | A new manager holds nothing, trusts nothing and routes nothing. |
| `HeadroomRouting.Manager.BeginStart` | server/headroom-manager.ts:1622-1624 | A start takes a new generation, superseding every earlier one. |
| `HeadroomRouting.Manager.AfterProbe` | server/headroom-manager.ts:1637-1678 | An occupied port, a superseded start or a failed spawn ends the start; otherwise the new child is held, untrusted. |
| `HeadroomRouting.Manager.AfterHealth` | server/headroom-manager.ts:1701-1730 | A superseded or unhealthy start lets its child go; only the current one goes on to the ownership check. |
| `HeadroomRouting.Manager.AfterFirstCheck` | server/headroom-manager.ts:1729-1748 | Only a held, living, current child that owns the port goes on; any other is let go. |
| `HeadroomRouting.Manager.AfterMetrics` | server/headroom-manager.ts:1748-1753 | The same once the metrics are in. |
| `HeadroomRouting.Manager.DiscardStart` | server/headroom-manager.ts:1784-1792 | An abandoned start takes its child out of routing unless another took its place. |
| `HeadroomRouting.Manager.AfterFinalCheck` | server/headroom-manager.ts:1753-1762 | Trust is given only to the held, living child of the current generation that owns the port. |
| `HeadroomRouting.Manager.OnExit` | server/headroom-manager.ts:1681-1700 | An exit takes the child out of routing at once, unless another took its place. |
| `HeadroomRouting.Manager.OnError` | server/headroom-manager.ts:1687-1695 | So does a spawn error. |
| `HeadroomRouting.Manager.Release` | server/headroom-manager.ts:1681-1686 | Letting a child go re-derives routing exactly when it was the held one. |
| `HeadroomRouting.Manager.StopProxy` | server/headroom-manager.ts:2288-2295 | A stop supersedes every start and takes everything out of routing. |
| `HeadroomRouting.Manager.StartShutdown` | server/headroom-manager.ts:2314-2320 | Shutdown closes routing synchronously, once. |
| `HeadroomRouting.Manager.CloseRouting` | server/headroom-manager.ts:2332-2339 | Shutdown's own write agrees with the projection. |
| `HeadroomRouting.Manager.Handle` | server/headroom-manager.ts:1632-1763 | Every event moves the fields as the state machine says and leaves routing exact. |
| `HeadroomLifecycle.AllowedExactly` | server/headroom-manager.ts:1350-1479 | The fold of calls allows a provider exactly when it was enabled initially or by an activation, with no later deactivation of it and no later uninstall. |
| `HeadroomLifecycle.Lifecycle.Run` | server/headroom-manager.ts:1594-1601 | Over any queue of calls, with anything happening in between: all are admitted unless shutdown has begun, and any that is not cancelled is; a provider enabled afterwards was enabled before or by an admitted activation, with no later admitted deactivation of it and no later admitted uninstall. |
| `HeadroomLifecycle.Lifecycle.DeactivateAndCarryOn` | server/headroom-manager.ts:1385-1395 | A deactivated provider stays out through any calls but an activation of it, unless shutdown begins. |
| `HeadroomLifecycle.Lifecycle.Perform` | server/headroom-manager.ts:1350-1479 | One call leaves no more enabled than it allows, exactly that when it is done, and nothing more once shutdown has begun. |
| `HeadroomLifecycle.Lifecycle.Await` | server/headroom-manager.ts:1681-1700 | Whatever others do at an await, the settings stay, shutdown is not undone, routing stays exact, and superseded starts cannot spawn. |
| `HeadroomLifecycle.Lifecycle.AwaitOthers` | server/headroom-manager.ts:1681-1700 | When no start is in flight, none appears at an await: what is quiet stays quiet. |
| `HeadroomLifecycle.Lifecycle.AwaitProbe` | server/headroom-manager.ts:1637-1678 | The answer to the probe ends the start or leaves it holding a child of its own generation. |
| `HeadroomLifecycle.Lifecycle.AwaitAnswer` | server/headroom-manager.ts:1701-1753 | A start goes on only after a positive answer, and does so if nothing else happened. |
| `HeadroomLifecycle.Lifecycle.AwaitFinalCheck` | server/headroom-manager.ts:1753-1762 | It succeeds only with the child trusted at its port and alive; a failure leaves nothing held. |
| `HeadroomLifecycle.Lifecycle.AwaitStart` | server/headroom-manager.ts:1632-1763 | A start succeeds only if probe, spawn, health and both ownership checks answered well and its child is trusted at that moment; if they did and nothing cut in, it succeeds. |
| `HeadroomLifecycle.Lifecycle.UpdatePersisted` | server/headroom-manager.ts:2451-2479 | The envelope written is the one read back. |
| `HeadroomLifecycle.Lifecycle.StopProxy` | server/headroom-manager.ts:2288-2307 | Afterwards no proxy is held and no start in flight can bring one. |
| `HeadroomLifecycle.Lifecycle.EnsureProxy` | server/headroom-manager.ts:1603-1630 | Success means that a child was confirmed to own the persisted port, by the start made now, all of whose answers were then good, or as the proxy in use was started, which is left running as it is; a failure has a reason, and nothing fails when all answers are good and nothing cuts in; the settings stay. |
| `HeadroomLifecycle.Lifecycle.ActivateLocked` | server/headroom-manager.ts:1354-1383 | Success enables exactly one more provider, all enabled ones routed at that moment, and restarts no proxy that is available; every other outcome changes nothing and has a reason. |
| `HeadroomLifecycle.Lifecycle.DeactivateLocked` | server/headroom-manager.ts:1385-1395 | An admitted deactivation always succeeds and removes exactly that provider; the last one takes the proxy with it, and otherwise the proxy runs on and the other provider stays routed. |
| `HeadroomLifecycle.Lifecycle.UninstallLocked` | server/headroom-manager.ts:1401-1479 | However it ends, an admitted uninstall leaves nothing enabled, routed or able to start; it is cancelled exactly when shutdown has begun. |
| `HeadroomLifecycle.Lifecycle.SetPortLocked` | server/headroom-manager.ts:1485-1541 | The persisted outcomes of a port change, which of them when, and those that shutdown can leave; a port out of range changes nothing, and with nothing cutting in the providers enabled afterwards are the ones routed. |
| `HeadroomLifecycle.Lifecycle.StartActiveProxyOnBootLocked` | server/headroom-manager.ts:1574-1592 | A boot keeps the settings, or disables everything when the proxy will not start; a shutdown on the way disables nothing. |
| `HeadroomPids.WalkReaches` | server/headroom-manager.ts:471-478 | The upward walk ends on every table and finds the root exactly when it is an ancestor. |
| `HeadroomPids.WindowsSnapshotHasOwnedListener` | server/headroom-manager.ts:466-481 | True exactly when some listener descends from the root. |
| `HeadroomPids.Pass` | server/headroom-manager.ts:488-492 | One pass adds descendants only, and a pass that adds nothing has reached closure. |
| `HeadroomPids.DescendantPids` | server/headroom-manager.ts:483-495 | The result is exactly the set of pids from which the root is reached along parents. |
| `HeadroomPids.OwnershipAgrees` | server/headroom-manager.ts:466-495 | Walk and closure agree on every table, cycles included. |
| `HeadroomSavings.SavingsAreConserved` | server/headroom-manager.ts:1989-2012 | The rounded shares add up to the total, or to one more exactly when both are exact halves. |
| `HeadroomSavings.LargerWeightLargerShare` | server/headroom-manager.ts:2005-2007 | Of a non-negative total the larger weight never gets the smaller share, and no share exceeds the total. |
| `HeadroomSavings.CountersInOrder` | server/headroom-manager.ts:1989-2007 | A provider's share is in proportion to its output tokens if it has any, else to its requests, else to one if it is active. |
| `HeadroomSavings.SplitOutputSavings` | server/headroom-manager.ts:1989-2012 | Both loops compute the two rounded shares of the weighed total, conserving it, and nothing when nothing weighs; output tokens weigh before requests, and these before mere activity. |
| `FrameworkMigration.Workspace.CompareSharedSubtrees` | server/framework-migration.ts:164-185 | Matching means there is a copy and every file in it but a custom agent is the same in the framework; and with every file readable the converse. |
| `FrameworkMigration.Workspace.CompareSubtree` | server/framework-migration.ts:173-182 | The loop over one subtree's files, custom agents excepted. |
| `FrameworkMigration.Workspace.BackUpOne` | server/framework-migration.ts:271-279 | The subtree is renamed to its backup, over an earlier one, or stays, an earlier backup then standing or gone. |
| `FrameworkMigration.Workspace.BackUp` | server/framework-migration.ts:269-290 | Exactly the copied subtrees are renamed aside, up to the first that will not go. |
| `FrameworkMigration.Workspace.RestoreBackups` | server/framework-migration.ts:380-390 | Each backup is live again, or still there. |
| `FrameworkMigration.Workspace.RestoreOne` | server/framework-migration.ts:381-388 | One backup comes back over whatever is in its place, or stays. |
| `FrameworkMigration.Workspace.PreserveOne` | server/framework-migration.ts:404-414 | A memory inside a backup is moved out file by file, only if there is no live one, and then always unless the rename fails. |
| `FrameworkMigration.Workspace.PreserveMemory` | server/framework-migration.ts:398-416 | A live memory is never overwritten, and a backup without one is not touched, crash or not. |
| `FrameworkMigration.Workspace.Relink` | server/framework-migration.ts:292-321 | Verified means assembled with every backed-up place a link into the framework. |
| `FrameworkMigration.Workspace.Revert` | server/framework-migration.ts:323-334 | Every backup comes back over what the re-link left, or stays a backup. |
| `FrameworkMigration.Workspace.CleanUp` | server/framework-migration.ts:344-371 | A backup with custom agents survives whole under one of its two names; otherwise it goes. |
| `FrameworkMigration.Workspace.CleanUpOne` | server/framework-migration.ts:345-370 | One backup is preserved whole if it holds custom agents, over an earlier preserved directory, which otherwise stands; it is dropped only behind a verified link. |
| `FrameworkMigration.Workspace.Convert` | server/framework-migration.ts:267-377 | From the backup on: what each outcome leaves at every subtree, and that no copy is lost, at the end or at any crash on the way. |
| `FrameworkMigration.Workspace.Replace` | server/framework-migration.ts:292-371 | Re-link, verification, and clean-up or revert: exactly when every copy was replaced by a link the backups are cleaned up, and otherwise they come back. |
| `FrameworkMigration.Workspace.RunMigration` | server/framework-migration.ts:243-377 | Every outcome but `migrated` leaves copied subtrees as they were, given successful reverts; after `migrated` each survives whole or is byte for byte in the framework; when nothing fails, which outcome, and exactly which earlier backups and preserved directories still stand; and at no state of the run that a crash could leave is a copy lost. |
| `FrameworkMigration.Workspace.MigrateWorkspaceToSymlinks` | server/framework-migration.ts:216-233 | Over the rules of a kimi workspace, and commands, agents, skills and rules of any other: nothing happens without a bundle, a link among them or no copy; one file changed by the user stops it; when nothing fails it goes through exactly if the re-link makes a link of every copy; `migrated` means every copy is one; copies with other custom agents than were preserved are preserved; nothing copied is lost, at any crash, and every outcome but `migrated` leaves it in place, given successful reverts. |
| `FrameworkMigration.SharedListed` | server/framework-migration.ts:69-84 | The list for each provider has exactly its shared subtrees. |
| `FrameworkMigration.Workspace.RetryAfterRevert` | server/framework-migration.ts:256-260 | After a successful revert the next attempt answers that the workspace is converted, its copies still copies, exactly when the re-link made a link where there was no copy; and exactly when the first attempt reverts. |
| `FrameworkMigration.LinkedAgentsEndTheMigration` | server/framework-migration.ts:323-334 | A workspace at which that happens. |
| `FrameworkMigration.EarlierAgentsAreLost` | server/framework-migration.ts:353-358 | A workspace at which a conversion leaves the custom agents an earlier one preserved nowhere. |
| `FrameworkMigration.ConvertWatched` | server/framework-migration.ts:267-377 | Any copy one watches is, at every state that a crash in the run could leave, in its place, in its backup, under its preserved name, or in the framework. |
| `FrameworkMigration.CrashedRunThenRetry` | server/framework-migration.ts:276-282 | A workspace and a crash after which the next run replaces the backup that holds the user's agents. |
| `FrameworkManager.Manager.Materialize` | server/framework-manager.ts:157-198 | Every required provider is either done and installed, or an error, never both. |
| `FrameworkManager.Manager.Recover` | server/framework-manager.ts:240-268 | The prior framework comes back, what the swap left being put aside, or is kept as a copy; somebody else's version is left alone; no copy is left behind but where the answer says so. |
| `FrameworkManager.Manager.SwapCurrentDetailed` | server/framework-manager.ts:219-281 | Success means `current` is at the version; each failure is one of unchanged, restored, or copy retained; and at no state a crash could leave in between is the prior framework out of reach. |
| `FrameworkManager.Manager.VersionCheck` | server/framework-manager.ts:289-359 | `current` stays at its version or goes to a strictly newer bundle, only after every provider asked for, and every known one registered or installed, was installed at it, except for a failed restore or another writer; and it does go when nothing fails; a current bundle is repaired in place. |
| `FrameworkManager.Manager.VersionChecks` | server/framework-manager.ts:305-315 | Over any sequence of bundles the installed version never goes down unless a check reports that it retained its recovery copy; and none does when file operations work and no other writer moves `current`. |
| `ExternalMcpSync.Settings.SyncExternalServers` | server/agent-mcp-config.ts:482-522 | Listed servers are in with the last config of their name, other owned names out, `specrails` and all else as before; exactly the listed names are owned unless a crash falls between the two writes; nothing to do writes nothing. |
| `ExternalMcpSync.Settings.NextServers` | server/agent-mcp-config.ts:503-515 | Both loops compute the next servers and the next owned names. |
| `ExternalMcpSync.SyncedExactly` | server/agent-mcp-config.ts:503-515 | What one sync makes of the servers in the file, name by name. |
| `ExternalMcpSync.Settings.InterruptedThen` | server/agent-mcp-config.ts:516-521 | After a sync interrupted between its writes and any history with a sync in it, a name of the interrupted list is there unowned exactly when nothing owned it then and no later sync lists it. |
| `ExternalMcpSync.UnownedForEver` | server/agent-mcp-config.ts:503-521 | Such a name stays with its config through any history that does not list it. |
| `ExternalMcpSync.DisabledServerStays` | server/agent-mcp-config.ts:497-521 | A file at which that happens. |
| `ExternalMcpSync.Settings.MergeServer` | server/agent-mcp-config.ts:458-472 | Sets `specrails` and nothing else. |
| `ExternalMcpSync.Settings.Perform` | server/agent-mcp-config.ts:458-522 | One more sync or merge extends any history. |
| `ExternalMcpSync.Settings.Run` | server/agent-mcp-config.ts:473-522 | After any history, whatever was owned to begin with, the file holds the original minus every name owned then or synced since, plus the last merge and the last list; the sidecar holds that list's names. |
| `ExternalMcpSync.HistoryIndependentExactly` | server/agent-mcp-config.ts:473-481 | The file is the original plus the last list exactly when no name ever synced was in the original, the last list's apart. |
| `ExternalMcpSync.SpecrailsIsLeftAlone` | server/agent-mcp-config.ts:508-515 | No history of syncs removes or overwrites `specrails`. |
| `ProcessAdmission.CurrentExactly` | server/process-admission.ts:38-60 | A lease is current exactly when no app quiescence, no reset and no quiescence or reopening of its own project happened since. |
| `ProcessAdmission.OvertakenForever` | server/process-admission.ts:81-86 | A lease that has been overtaken never becomes current again, though a reset clears the project counters. |
| `ProcessAdmission.LeaseLifetime` | server/process-admission.ts:38-60 | From capture to the end of its life and beyond, for every run. |
| `ProcessAdmission.Admission.Capture` | server/process-admission.ts:32-47 | A lease is given exactly when admission is open, and is current. |
| `ProcessAdmission.Admission.IsCurrent` | server/process-admission.ts:44-50 | The closure's answer is the specification's. |
| `ProcessAdmission.Admission.BeginAppProcessQuiescence` | server/process-admission.ts:62-67 | Closes once and counts once. |
| `ProcessAdmission.Admission.BeginProjectProcessQuiescence` | server/process-admission.ts:69-73 | Closes one project and moves its generation. |
| `ProcessAdmission.Admission.OpenProjectProcessAdmission` | server/process-admission.ts:75-79 | Opens it into a new generation. |
| `ProcessAdmission.Admission.ResetProcessAdmission` | server/process-admission.ts:81-86 | Opens everything into a new application generation. |
| `ProcessAdmission.Admission.Handle` | server/process-admission.ts:62-86 | Every event moves the module's variables as the barrier's step says. |
| `ProcessAdmission.Admission.Continuation` | server/process-admission.ts:22-86 | Capture, any events, then ask: the answer is whether any of them ended the lease. |
| `XorStream.XorTransform.Transform` | server/chromium-resolver.ts:118-131 | One chunk comes out combined with the key from the running offset on, and the offset moves by its length. |
| `XorStream.XorAppend` | server/chromium-resolver.ts:124-128 | Combining a concatenation is combining its parts, the offset carried over. |
| `XorStream.Pipe` | server/chromium-resolver.ts:118-131 | For every cutting into chunks each byte comes out combined with the key's byte at its position in the stream. |
| `XorStream.PackAndUnpack` | server/chromium-resolver.ts:118-131 | Packing and unpacking with different cuttings restores the bytes. |
| `XorStream.Deobfuscate` | server/chromium-resolver.ts:133-136 | An archive whose every byte was combined with the application's key at its position gives the original, however it is read. |
| `Slugs.SlugifyJoinsWords` | server/desktop-router.ts:82-84 | A slug is the lower-cased name's runs of letters and digits joined by single dashes: lower-case letters, digits and single inner dashes only. |
| `Slugs.SlugifyFixesSlugsExactly` | server/desktop-router.ts:82-84 | Exactly the slugs are left alone, so slugifying is idempotent. |
| `Slugs.NumberedIsInjective` | server/desktop-router.ts:99-100 | Different numbers give different candidates. |
| `Slugs.AllocateSlug` | server/desktop-router.ts:94-102 | The search ends for every set, with a slug outside it: the name's own, or `project` for none, if free, else that with the least free number from two on. |
| `Slugs.AllocateAll` | server/desktop-router.ts:94-102 | Successive allocations are pairwise distinct and new. |

## Left out

- CoreUpdate.CoreUpdateManager.Update: one update or start-up reseed at a time; downloading and staging the package is one outcome, materializing it another, and both are inputs; the latest version of the current channel is an input.
- CoreUpdate.CoreUpdateManager.constructor: a status file that cannot be read and one whose version is invalid are one case.
- CoreUpdate.AssembleProvider: an install that exits without error is trusted to have assembled its provider.
- MigrationRun.Machine.MoveOverwriting: renames succeed for all moves of a project, or may fail for any.
- MigrationRun.Machine.MigrateProject: missing parent directories are not tracked; an assemble may leave anything in the places it seeds, which are a parameter, and changes nothing in the repository; schedules start once the first journal is on disk.
- MigrationPlan.BuildCleanupManifest: the candidates, found by directory listing and name patterns, are an input.
- JsonSource.RepairKeepsMeaning: a dropped backslash or carriage return counts for nothing, even between an escape by `u` and its digits.
- JsonTolerant.RepairJsonText: characters are code points, and repairs a set without order; `JSON.parse` and error excerpts are not modelled.
- JsonTolerant.EscapesAreLegal: the code does not check four hex digits after `\u`, and nor is it claimed.
- JsonTolerant.ValidOutputIsFixed: repairing is not idempotent on arbitrary input (doubled commas need a second pass), so it is claimed for valid outputs only.
- SemverLite.OrderIsTotalPreorder: numbers are unbounded where the program has doubles, and strings are ordered by code point.
- SemverLite.LastIdentDecides: written tags hold ASCII letters, digits, dots and hyphens; parsing is total on all strings.
- RegistryLock.WritersAreSerialized: a heartbeat is one step; judging a lock file stale and removing it is one step, so two reclaimers acting on one judgement are not covered.
- ArtifactRegistry.Registry.ReconcileFromProjects: canonical paths, index keys and timestamps are inputs; a write at the very time of the mirror may leave an equal entry, which a rollback takes for its own; `null` counts as absent; a write that throws leaves the file as it was.
- HeadroomRouting.Manager.AfterFinalCheck: the final ownership check and its continuation are one step, and a child is dead once its exit has been delivered.
- HeadroomLifecycle.Lifecycle.EnsureProxy: a start left in flight by an earlier call is not joined but superseded; operations are queued, so none is in flight. Progress is claimed for an await at which nothing else happens.
- HeadroomLifecycle.Lifecycle.UninstallLocked: install records, versions and the two kinds of installs are one outcome each.
- HeadroomSavings.SplitOutputSavings: exact reals, no floating point.
- FrameworkMigration.Workspace.RunMigration: equal hashes are equal contents; a copied subtree with an `agent-memory` directory inside is covered only as far as its place is concerned; links inside a copy are not files.
- FrameworkManager.Manager.VersionCheck: broadcasting; reading a version may not fail between two reads.
- ExternalMcpSync.Settings.SyncExternalServers: each of the two writes replaces its file whole.
- Slugs.SlugifyJoinsWords: lower-casing is a parameter that leaves slugs alone.
- Installing Headroom and output learning: they change neither port nor activation.
- The Headroom relay, probing and spawning: bytes and sockets, represented by their outcomes.
- HTTP and WebSocket routing, the databases, prompts, themes and the client: no protocol of this kind.
