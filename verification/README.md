# NX-PlayWise, verified in Dafny

NX-PlayWise is a parental-control sysmodule with a companion app. It keeps its critical state on
a FAT SD card, where a rename cannot replace an existing file, so most of its safety rests on
hand-written protocols: journals in two generations, temporaries that are removed or promoted at
the next start, compensating steps, leases in two alternating slots, and conservative accounting.
This project models those protocols and proves what they are for.

| file | what it models |
|---|---|
| `Wrappers.dfy`, `Decimals.dfy` | values that may be absent, what becomes of a replaced file, and numbers in decimal |
| `CrashDisk.dfy` | the SD card: one file step at a time, each of which may succeed, fail or be cut by a power loss |
| `UpdateJournal.dfy`, `UpdateInstall.dfy`, `UpdatePrepare.dfy` | installing a release over live files and rolling it back |
| `BootFlags.dfy` | the Device Lab boot-flag transaction |
| `HotReload.dfy` | the hot-reload guard |
| `AlbumState.dfy`, `AlbumRestriction.dfy`, `IniTransform.dfy` | the album restriction, its transaction record as printed and read, and the INI rewriting it depends on |
| `InputOwner.dfy` | the overlay's input lease and the app's reader |
| `GrantPlan.dfy` | grant arithmetic |
| `LedgerText.dfy`, `NonceLedger.dfy` | the replay ledger, as text |
| `Redemption.dfy` | offline codes and the daily buffer, with the recovery transaction |
| `DockUsage.dfy` | accounting of play away from the TV |
| `EyeCareRest.dfy` | the forced rest |
| `PinBackoff.dfy` | the PIN and its cooldowns |

## How to read the contracts

*Crashes.* In the journaled modules every primitive step either succeeds, fails without effect
(the session is then `Faulted`), or loses power before or after taking effect (`Dead`), and a dead
session writes nothing more. The final image of a session that ends `Dead` is therefore exactly
the image of a crash at one of its steps, and an `ensures` about the final image is a statement
about every crash point and every failing step. A session that ends `Clean` is one that was not
disturbed.

*Runs.* Statements over unbounded runs are lemmas by induction over sequences of sessions, events,
polls or attempts, or methods that execute an arbitrary event list on the real classes.

*Fast form and simple form.* Where the program updates a record step by step (`SampleUsage`,
`VerifyPin`, `Enforce`, `Block`, the INI loop), the method follows the program's order and is
proved equal to a function written by cases; the properties are then lemmas about that function.

## Where the code does less than one might hope

Each of these is a lemma or an exact condition, not an opinion.

- A rollback of an update that a start-up loads can be stopped anywhere and finished later if and
  only if its journal explains every path, it holds the lock, the active record names it, and no
  path but the last is missing (`UpdateInstall.RollbackIsSafeIff`). Three ways of missing the
  condition are met in use. After a completed install the lock has been given up
  (`UpdateInstall.RollbackAfterInstallIsUnsafe`), and a prepare stopped under its lock may not be
  the active record yet (`UpdateInstall.RollbackOfAStoppedPrepareIsUnsafe`); in both a power loss
  during the rollback's first save leaves no journal a start-up can load. After an install stopped with an earlier path
  missing, the second save, which turns to the last file, leaves a journal that is loaded and does
  not explain the gap, so that every later rollback refuses
  (`UpdateInstall.RollbackOfAnEarlyGapIsUnsafe`).
- Saving the update journal always leaves a loadable journal if and only if the lock is held and
  the active record already names the transaction (`UpdateJournal.SaveAlwaysLeavesAJournalIff`).
  The first save of the rollback above and the last save of a first prepare do not meet this
  (`UpdateJournal.SavesThatCanLoseTheJournal`).
- A prepare that loses power under its lock is found again by a start-up exactly under the
  condition of `UpdatePrepare.ClaimedLoadsIff`; it is not while the own record is being replaced,
  nor while another transaction has become the active record unfinished.
- A power loss while the lab flag is created leaves a temporary that nothing removes, and every
  later enable fails (`BootFlags.StrayLabTemporaryBlocksEnable`, on a concrete card
  `BootFlags.StrayLabTemporaryExample`). The read-only inspection reports a contradiction on an
  image that the next restore simply completes (`BootFlags.InspectionOfAnInterruptedImage`,
  `BootFlags.ReportedContradictions`).
- A reader misses a lease that runs throughout exactly when it meets slot 0 without a running lease
  and slot 1 in the gap of a renewal, which takes a whole renewal period between its two reads
  (`InputOwner.InputIsHeldWhileALeaseRuns`); a writer that renews on time passes through two such
  moments (`InputOwner.StalledPollMissesTheLease`).
- The INI rewriting is idempotent except when the input has no CRLF and its last kept line ends the
  text in a bare CR, as in the two bytes "a", CR (`IniTransform.RewriteIsIdempotentIff`,
  `IniTransform.BareCrIsNotIdempotent`); then enabling succeeds, the status is an anomaly, and the
  unforced restore refuses (`AlbumRestriction.EnableThenRestore`,
  `AlbumRestriction.BareCrIsAnAnomaly`).
- A failed unforced restore can be repeated exactly when it changed nothing. Otherwise only a forced
  one can finish the work, and only while no backup has moved and no conflict copy exists
  (`AlbumRestriction.Restore`). A failing save can lose the record itself. Then the app calls the card
  an anomaly, or somebody else's work if nothing was backed up, no restore runs again, forced or not,
  and while a backup stands no request of any kind changes a file
  (`AlbumRestriction.LostRecordIsFinal`, `AlbumRestriction.NothingHelps`). A forced restore directly after enabling gives the original files
  back exactly when there was an override file to begin with
  (`AlbumRestriction.RestoreUndoesEnable`).
- Ledger compaction does not count blank lines as a change and never drops them. A compaction that
  reports success leaves room for one more record exactly when it rewrote the file or the file was
  short enough before (`NonceLedger.RoomAfterCompaction`); a file of newlines stays as long as it
  was, and beyond the buffer size no transaction can copy it any more
  (`NonceLedger.BlankLinesStay`).
- Nor does compaction complete a last line that lacks its newline. The next record is added exactly
  when the file ends behind a newline, or in a lone carriage return; otherwise it shares a line with
  the record before it and every later lookup and compaction fails
  (`NonceLedger.Ledger.ConsumeNonce`, `NonceLedger.UnterminatedLineIsJoined`).
- A rewriting of the ledger removes the old file before it renames the new one. Behind a compaction
  every answer from today on is unchanged, except exactly if it fails in between and some record of
  today was kept (`NonceLedger.Ledger.Compact`, `NonceLedger.GapForgetsToday`). No copy exists yet at
  that moment, and the next request credits a code of today again
  (`Redemption.LostLedgerIsCreditedTwice`). The note of a mistyped short code replaces the state in
  the same way, in front of the copies; losing it there loses the mark of the daily buffer
  (`Redemption.LostStateGrantsTheBufferTwice`).
- The flag that stops granting is a file whose writing may fail unnoticed. Behind a failed rollback
  without it, a request that carries the id of the open transaction is let in on books out of order:
  a redemption cut behind the saved rules is credited twice (`Redemption.CutRequestIsCreditedTwice`).
  These three are the only ways: until one of them has happened nothing is credited twice, whatever
  else fails (`Redemption.BooksSurvive`, `Redemption.Run`), and behind each of them the books are out
  of order without a copy as soon as the request has gone through (`Redemption.SpoiltForGood`,
  `Redemption.PerformEvent`).
- The removal of a finished recovery transaction may stop half way. If the file that names its owner
  stands and a copy is gone, the transaction is open and no start and no retry can roll it back;
  every undisturbed one stops granting (`Redemption.Sysmodule.RecoveryRollback`,
  `Redemption.Sysmodule.Boot`, `Redemption.Sysmodule.Retry`).
- While an installed update that has given its lock up is rolled back, another one may prepare in
  exactly one image of each of its saves, the gap of the active record
  (`UpdatePrepare.OnlyTheGapAdmitsOthers`); the next publication of the rollback then spoils that
  preparation unless it puts back the very bytes that were backed up
  (`UpdatePrepare.UnlockedPublicationSpoilsIff`).
- With a limit of more than a day in force the grant arithmetic wraps: over an override of 1441
  minutes, half an hour is planned as 65535 minutes towards a lower limit
  (`GrantPlan.AwardIsBoundedIff`, `GrantPlan.AMinuteBeyondADay`).
- A PIN set at a clock before 1970 is stored, answered with success and never accepted. No attempt,
  at whatever clock, makes a readable record unreadable, unless its failing write loses the file
  (`PinBackoff.WrittenRecordsAreReadableIff`, `PinBackoff.PinBeforeTheEpoch`).
- A dock rebaseline that owes nothing follows the timer without charging it, and so does the first
  sample behind a dropped starting point. Nothing else is left out of the books
  (`DockUsage.EveryMinuteIsAccountedFor`, `DockUsage.NothingIsSkipped`).

## Model

| member | source | states |
|---|---|---|
| CrashDisk.Disk.Write | platform/update_fs.c:142-171 | writing a file either takes effect, fails without effect, or is cut by a power loss on either side, a torn content being possible where the caller allows one |
| CrashDisk.Disk.Rename | platform/update_fs.c:118-134 | a rename moves one file to a free name in one step and never replaces a file |
| UpdateJournal.Replace | platform/update_fs.c:142-171 | replacing a journal file leaves, wherever it stops, one of the five images it passes through, and an undisturbed replacement fails only over a leftover temporary of another text |
| UpdateJournal.Save | companion/update_install.c:140-156 | a save leaves, wherever it stops, one of the images of writing the own record and then the active record, and success means both read back |
| UpdateJournal.SaveKeepsAJournal | companion/update_install.c:140-180 | under the lock and with the active record naming the transaction, every crash point of a save loads the old journal or the new one |
| UpdateJournal.SaveAlwaysLeavesAJournalIff | companion/update_install.c:140-180 | a save leaves a loadable journal at all of its crash points if and only if the lock is held and the active record names the transaction |
| UpdateJournal.SavesThatCanLoseTheJournal | companion/update_install.c:140-180 | two saves made in use miss that condition and have a crash point at which no start-up finds a journal: over the records a completed install leaves, and under a claimed lock without an active record |
| UpdateInstall.FilesMatch | companion/update_install.c:182-197 | an undisturbed comparison says exactly whether every live path holds its before (or after) content, absent ones being absent |
| UpdateInstall.Publish | platform/update_fs.c:118-134 | publishing over a live path leaves one of four images, and is refused over a leftover temporary or unexpected live bytes |
| UpdateInstall.DiscardTemporary | platform/update_fs.c:173-180 | only a temporary that holds one of the transaction's two contents is removed |
| UpdateInstall.Unlock | companion/update_install.c:9-17 | only the transaction's own lock is removed, and an absent lock counts as removed |
| UpdateInstall.SaveFromSettled | companion/update_install.c:140-156 | advancing the journal of a settled transaction is recoverable at every crash point and settles it under the new journal |
| UpdateInstall.PublishFromSettled | platform/update_fs.c:118-134 | publishing over the one path the journal names keeps the transaction settled at every crash point |
| UpdateInstall.InstallFile | companion/update_install.c:239-259 | one turn of the install loop keeps the image recoverable wherever it stops and puts the after content in place when it succeeds |
| UpdateInstall.Install | companion/update_install.c:239-259 | wherever an install of a settled transaction stops, a start-up can recover it; success means every path holds its after content, the journal says so and the lock is gone; an undisturbed install succeeds exactly on an installable image |
| UpdateInstall.Validate | companion/update_install.c:261-295 | before anything is restored every path is checked to be explained by the journal, and nothing has been written |
| UpdateInstall.RollBackFile | companion/update_install.c:261-295 | one turn of the reverse loop restores one path, keeps those already restored, and stays recoverable wherever it stops |
| UpdateInstall.Rollback | companion/update_install.c:261-295 | a rollback that starts settled with no path but the last missing is recoverable wherever it stops; an undisturbed one succeeds exactly from a ready image, locked or not, and restores every path, absent ones absent; no foreign file is touched |
| UpdateInstall.LoadAndRollBack | companion/nro/online_update.c:322-346 | from any recoverable image one undisturbed load and rollback returns true with every live path exactly restored |
| UpdateInstall.StoppedRollbackIsReadyIff | companion/update_install.c:261-295 | the image behind the second save of a rollback is loaded with its journal turned to the last file, and that journal explains the image if and only if no earlier path was missing when the rollback began |
| UpdateInstall.RollbackIsSafeIff | companion/update_install.c:261-295 | for whatever transaction a start-up loads and rolls back, every image the first two saves of the rollback pass through is recoverable if and only if its journal explains every path, the lock is held, the active record names it, and no path but the last is missing |
| UpdateInstall.UnnamedRollbackCanLoseTheJournal | companion/update_install.c:140-180 | without the lock, or without the active record naming the transaction, the first save passes an image from which no start-up loads a journal |
| UpdateInstall.TurnedJournalCanHideTheGap | companion/update_install.c:279-291 | with an earlier path missing the second save leaves an image whose loaded journal does not explain the gap |
| UpdateInstall.RollbackAfterInstallIsUnsafe | companion/update_install.c:255-295 | the image a completed install of twelve replaced files leaves is such an unlocked one |
| UpdateInstall.RollbackOfAStoppedPrepareIsUnsafe | companion/nro/online_update.c:322-346 | the image of a prepare stopped under its lock without an active record, which a start-up rolls back, is such an unnamed one |
| UpdateInstall.RollbackOfAnEarlyGapIsUnsafe | companion/update_install.c:239-295 | the image of an install stopped with its first path missing is such a gap |
| UpdatePrepare.Claim | platform/update_fs.c:182-192 | the lock is created only where no lock exists |
| UpdatePrepare.BackUpFile | companion/update_install.c:199-237 | success means the backup holds the recorded before content, among any steps of other transactions; when nobody else is active it is exactly the live content, and the copy fails only under the stated condition |
| UpdatePrepare.Activate | companion/update_install.c:199-237 | behind the claim the live files are compared again and the active record is written; success means owning both lock and active record with matching before images; a failure gives the lock up or leaves the card as `Claimed` says |
| UpdatePrepare.Prepare | companion/update_install.c:199-237 | a prepare that returns true owns the lock and the active record, and its before contents equal the backups and the live files as re-read under the lock; with a lock present it changes nothing; wherever it stops, a power loss included, the lock is not its own or the card is as `Claimed` says; when nobody else is active an undisturbed one succeeds exactly under the stated condition |
| UpdatePrepare.ClaimedLoadsIff | companion/update_install.c:158-180 | a start-up finds the journal of a stopped prepare exactly when it is the active record, or the lock leads to the own record past no or a finished other transaction |
| UpdatePrepare.ClaimedIsRecoverable | companion/update_install.c:158-295 | what it finds is enough for a rollback as long as the live paths are still those that were backed up |
| UpdatePrepare.NobodyElsePrepares | companion/update_install.c:199-237 | in every schedule of steps of other transactions, while one holds the lock no other preparation succeeds and the preparation stays intact |
| UpdatePrepare.LockedWorkIsGuaranteed | companion/update_install.c:239-295 | what an install or a rollback under the lock may write is invisible to every other transaction |
| UpdatePrepare.WorkUnderTheLock | companion/update_install.c:239-295 | an install and a rollback under the lock keep, wherever they stop, the guarantee that the exclusion of other prepares rests on |
| UpdatePrepare.OnlyTheGapAdmitsOthers | companion/update_install.c:140-237 | while an unfinished transaction saves, the test for an open transaction lets others prepare in exactly those images in which the active record is missing, and there is one in every save |
| UpdatePrepare.UnlockedPublicationSpoilsIff | companion/update_install.c:265-291 | a foreign publication onto a live path keeps a preparation if and only if it puts back the backed-up content, and leaves the path explainable if and only if it is one of the preparation's two contents |
| UpdatePrepare.PreparedIsSettled | companion/update_install.c:199-259 | a successful preparation is exactly a settled transaction, up to leftover publication temporaries |
| BootFlags.RecoverJournal | device_lab/boot_flags.c:84-116 | recovery settles on one generation, loses none wherever it stops, and leaves a single whole journal when it succeeds |
| BootFlags.WriteJournal | device_lab/boot_flags.c:183-212 | writing a legal next phase leaves the old or the new phase readable at every crash point, torn temporaries included |
| BootFlags.BeginTransaction | device_lab/boot_flags.c:229-290 | a fresh enable keeps the standard flag under one of its names at every crash point and never overwrites a file of its own names |
| BootFlags.Enable | device_lab/boot_flags.c:229-290 | every stop leaves the flag untouched or explained by the journal; success means the lab flag is active with the standard flag aside; the answer of an undisturbed call is characterised exactly |
| BootFlags.ReturnStandardFlag | device_lab/boot_flags.c:292-346 | the backup goes back only onto a free name, and an undisturbed return succeeds exactly when the two names are as the journal says |
| BootFlags.DisableLab | device_lab/boot_flags.c:292-346 | a lab flag with content is a conflict and nothing changes; an empty one is removed under a journal that stays readable |
| BootFlags.Restore | device_lab/boot_flags.c:292-346 | every stop keeps the journal's promise; without a readable generation nothing is touched; success leaves all three flags exactly as before enable |
| BootFlags.RestoreSurvivesAnyCrashes | device_lab/boot_flags.c:229-346 | after any mixture of enables and restores, an enable over a completed journal included, and any number of restores, all stopped anywhere, an undisturbed restore reports success if and only if a generation was whole in front of the restores, and the flags are as before in either case |
| BootFlags.AnySessionsKeepTheFlag | device_lab/boot_flags.c:229-346 | through any mixture of interrupted enables and restores the standard flag exists under exactly one name with its own bytes |
| BootFlags.StrayLabTemporaryBlocksEnable | device_lab/boot_flags.c:214-290 | a temporary lab flag left by a power loss survives the restore and makes the next enable fail |
| BootFlags.StrayLabTemporaryExample | device_lab/boot_flags.c:214-290 | such a card: power lost while the lab flag is written without a standard flag; the restore succeeds and the next undisturbed enable asks for a recovery |
| BootFlags.InspectionAgreesWithRecovery | device_lab/boot_flags.c:125-181 | the read-only inspection shows the generation a recovery would settle on |
| BootFlags.InspectionOfAnInterruptedImage | device_lab/boot_flags.c:125-181 | what each reported state means on every image an interruption can leave, both directions |
| BootFlags.ReportedContradictions | device_lab/boot_flags.c:125-181 | a torn first generation and a lab flag removed just before a power loss are both reported as contradictions, and the restore of the second succeeds |
| HotReload.WriteJournal | companion/hot_reload_guard.c:210-244 | the readable generation is the old or the new one at every crash point and the flags are untouched |
| HotReload.ReadJournal | companion/hot_reload_guard.c:292-321 | reading promotes or removes the temporary without ever changing which generation is readable |
| HotReload.DisableBoot | companion/hot_reload_guard.c:323-349 | at every crash point exactly one of boot flag and backup exists and the journal is readable while the backup does; an undisturbed call succeeds exactly under the stated guard |
| HotReload.RestoreBoot | companion/hot_reload_guard.c:351-366 | the same at every crash point of the way back, and an undisturbed call always succeeds from a guarded image |
| HotReload.FinishJournal | companion/hot_reload_guard.c:368-379 | the journal is never dropped while a backup exists; otherwise an undisturbed call removes both generations |
| HotReload.ReadThenRestore | companion/hot_reload_guard.c:292-366 | from every image an interruption leaves with the flag away, reading the journal and restoring brings the flag back |
| InputOwner.Store.WriteAtomic | platform/switch/fs_storage.c:59-91 | another process meets the slot old, missing or new, and nothing else changes |
| InputOwner.Writer.WriteLease | companion/input_owner.c:136-147 | only the named slot of the bound boot changes, to a lease of this owner that runs a whole lease time |
| InputOwner.Writer.Acquire | companion/input_owner.c:158-180 | a new acquisition succeeds only over slots without a running lease, and then both slots are the writer's own; a running lease pair of anyone else is not touched at any moment; when no storage step fails it succeeds exactly under the stated condition |
| InputOwner.Writer.Maintain | companion/input_owner.c:182-203 | success means the clock neither ran back nor past the lease; a renewal touches one slot while the other shows, at every moment another process can see, the lease the writer believed in; an active unexpired writer holds both slots; when no storage step fails the lease is kept exactly while it is unexpired and, when due, the slots and the runtime are still the writer's |
| InputOwner.Writer.Accept | companion/input_owner.c:205-213 | an accepted input has both slots held and the runtime still naming the bound boot, and exactly these refuse it when no storage step fails |
| InputOwner.Writer.Release | companion/input_owner.c:222-236 | the writer is inactive at once, foreign or unreadable slots are left alone, a release without failure hides both, and when no storage step fails it reports a failure exactly for a slot that is not its own |
| InputOwner.Step | companion/input_owner.c:158-236 | one event at any later time keeps every other running lease pair; every store state met meanwhile still covers every running lease until its expiry, and a pair changes only by a renewal that is due, slot missing in between |
| InputOwner.Run | companion/input_owner.c:158-236 | in any run of calls by any number of writers on a clock that does not run back, at most one unexpired active writer exists per boot |
| InputOwner.Reader.Block | companion/input_owner.c:246-285 | one poll equals the specified transition on what its reads found, which without a fault is what the files held, the two slots being read at possibly different moments |
| InputOwner.InputIsHeldWhileALeaseRuns | companion/input_owner.c:246-285 | over any run of calls of any number of writers in which one keeps its lease, up to the end of a call that loses it, a poll whose clock was read first and that reads slot 0 at one moment of the run and slot 1 at a later one is held by every reader and under every read fault if and only if it does not meet slot 0 without a running lease and slot 1 missing; reads less than a renewal period apart are always held |
| InputOwner.PollIsHeldIff | companion/input_owner.c:246-285 | without read faults such a poll is held exactly unless it misses both slots and the reader has no reason of its own: a clock that ran back, a pending neutral poll, an unreadable runtime file or an owner it has not acknowledged |
| InputOwner.InputWaitsForNeutral | companion/input_owner.c:246-285 | in any run of polls, after input was held none passes until a neutral poll in between has answered no |
| InputOwner.InputNeedsAnAcknowledgedOwner | companion/input_owner.c:246-285 | input that passes under some owner's lease file was preceded by a neutral poll that noticed that owner and answered no, so a lease nobody saw running still stops the next input |
| InputOwner.StalledPollMissesTheLease | companion/input_owner.c:246-285 | an undisturbed writer that takes the lease and renews on time passes through two moments exactly a renewal period apart at which a poll misses its running lease |
| GrantPlan.Rules.AccumulateTodayLimit | sysmodule/sysmodule_control.c:206-222 | today's override becomes the larger of limit and minutes begun plus the grant, at most a day |
| GrantPlan.PlanIsExact | sysmodule/sysmodule_control.c:167-199 | for every usage up to the signed 64-bit maximum and every rule within a day nothing wraps or truncates, the award is at most what was asked, the remaining time covers it and is exact to the minute, and the planned target is what accumulation writes |
| GrantPlan.AwardIsBoundedIff | sysmodule/sysmodule_control.c:167-199 | the plan keeps the limit, and awards no more than asked, if and only if the limit in force is within a day |
| GrantPlan.PlanPastADay | sysmodule/sysmodule_control.c:167-199 | beyond a day the target falls back to a day and the award wraps to 65536 minus the excess |
| GrantPlan.AMinuteBeyondADay | sysmodule/sysmodule_control.c:167-199 | an override of 1441 minutes turns half an hour asked for into 65535 minutes planned |
| GrantPlan.Rules.Award | sysmodule/sysmodule_requests.c:118-138 | the award is exactly the distance from the larger of limit and minutes begun to the target, the new limit is reached by it, and an award of nothing changes nothing |
| GrantPlan.AwardAll | sysmodule/sysmodule_control.c:167-222 | over any sequence of awards on a day the limit never falls and the awarded minutes add up to at most a day minus the first base |
| LedgerText.LineDistinct | sysmodule/sysmodule_history.c:52-60 | two different records are printed as different lines |
| LedgerText.OccursIsMembership | sysmodule/sysmodule_history.c:52-66 | on the text compaction builds, the substring test finds a line exactly when that record is already there |
| LedgerText.RenderedLines | platform/switch/fs_storage.c:261-284 | a written ledger is read back as exactly its lines |
| LedgerText.LinesOfAppended | platform/switch/fs_storage.c:93-142 | appending to a text that ends in a newline leaves the earlier lines as they were |
| NonceLedger.Scan.Visit | sysmodule/sysmodule_history.c:22-72 | a visited line extends the pass to the records so far; a refused one is malformed or leaves no room |
| NonceLedger.Ledger.ReadLines | sysmodule/sysmodule_history.c:74-86 | the pass meets every line in order, or fails exactly because a line cannot be read, understood or kept |
| NonceLedger.Ledger.CheckNonceUsed | sysmodule/sysmodule_history.c:88-98 | without a storage fault the answer is whether the record is in a wholly readable ledger, and an unreadable one is an error, never a no |
| NonceLedger.Ledger.Compact | sysmodule/sysmodule_history.c:100-116 | which of the three answers it gives is characterised exactly; success leaves exactly `Compacted`, which holds the kept records; a failed rewriting leaves the file alone or, in the gap behind the removal, loses it; every answer from today on is unchanged except exactly by such a loss of a kept record; a file that could be appended to still can |
| NonceLedger.LeftAloneIff | sysmodule/sysmodule_history.c:45-72 | compaction leaves the file as it is if and only if its lines other than blank ones are the kept records as the program writes them |
| NonceLedger.KeptAnswers | sysmodule/sysmodule_history.c:45-70 | compaction preserves every answer for today and later and forgets exactly the earlier days |
| NonceLedger.KeptInOrder | sysmodule/sysmodule_history.c:45-70 | the kept records are a subsequence of the old ones without repetition |
| NonceLedger.RoomForOneMore | sysmodule/sysmodule_history.c:63-66 | a file with room takes one more record and can still be copied by the recovery transaction |
| NonceLedger.RoomAfterCompaction | sysmodule/sysmodule_history.c:45-72 | behind a successful compaction the file has room for one more record if and only if it was rewritten or had room before, and always when it has no blank line |
| NonceLedger.UntouchedFileIsCompact | sysmodule/sysmodule_history.c:60-66 | a complete file without blank lines that compaction leaves alone is byte for byte what it would have written |
| NonceLedger.BlankLinesStay | sysmodule/sysmodule_history.c:28-28 | compacting a file of any number of newlines answers success and leaves it as long as it is, so that beyond the buffer size the copy of a transaction fails for ever |
| NonceLedger.UnterminatedLineIsJoined | sysmodule/sysmodule_history.c:88-132 | compaction leaves a record without its newline alone, the next record is appended to that line, and from then on lookup and compaction fail |
| NonceLedger.GapForgetsToday | platform/switch/fs_storage.c:59-91 | a rewriting that fails between removing the old ledger and renaming the new one reports a failure and makes a code redeemed today count as unused |
| NonceLedger.Ledger.ConsumeNonce | sysmodule/sysmodule_history.c:118-132 | on a readable ledger a successful append adds exactly that record if and only if the file ends behind a newline or in a lone carriage return, and otherwise makes the ledger unreadable; a failed one may leave part of the line behind |
| Redemption.Sysmodule.VerifyOfflineCode | sysmodule/sysmodule_request_grants.c:124-194 | a verified code is of today, not in the ledger, and judged good after at most one re-check; bad short codes count towards the lockout or lose the state by that, and nothing else changes it; when no step fails a code is verified exactly if it is good, not locked out and not recorded |
| Redemption.Sysmodule.RecoveryBegin | sysmodule/sysmodule_storage.c:494-566 | the copied image equals the current one, the ledger's answers from today on survive a successful compaction, and the books stay in order unless a failing one loses the ledger; another request's open transaction stops this one; when no step fails, these and a ledger that is full, unreadable or too long to be copied are the only reasons to refuse |
| Redemption.Sysmodule.CompactLedger | sysmodule/sysmodule_history.c:100-116 | behind the compaction the books are in order if and only if it succeeded, left the file alone, or lost one without a record of today or later |
| Redemption.Sysmodule.RecoveryRollback | sysmodule/sysmodule_storage.c:569-665 | success means everything is as copied; failure keeps the transaction, comes only from a failing step or a copy that is gone, and leaves the credits of now, those copied, or none; a transaction with a copy gone is never rolled back |
| Redemption.Sysmodule.FinishWithError | sysmodule/sysmodule_control.c:92-119 | an error rolls back this request's own open transaction and touches nobody else's; either everything is as copied or the transaction is still open, whether or not the flag could be written |
| Redemption.Sysmodule.ApplyTarget | sysmodule/sysmodule_control.c:36-78 | failure leaves everything as it was or the transaction open; success leaves an open transaction whose image is the state before; on books in order it keeps them so or their copy, or has lost the ledger without one |
| Redemption.Sysmodule.Complete | sysmodule/sysmodule_request_grants.c:363-459 | behind the saved rules, either the credit stands with its record, or everything is back as copied, or the transaction is still open; where the ledger could be appended to, the books are in order behind the credit if and only if they were before; without a failing step it stands |
| Redemption.Sysmodule.Seal | sysmodule/sysmodule_request_grants.c:434-449 | the credit stands only once the ledger has the code; a ledger write that fails, even half way, is rolled back or leaves the transaction open |
| Redemption.Sysmodule.ProcessOfflineCode | sysmodule/sysmodule_request_grants.c:276-460 | a granted code was not recorded, is credited and recorded, and raised the limit by the planned amount with parental control told the same; from books in order or with a copy, not let in on an open transaction out of order, it leaves them so, whatever fails, unless a file with a record of today was lost without a copy; behind an undisturbed grant the books are guarded if and only if they were in order before; a refused request leaves rules, target, histories and credits alone or its transaction open; when no step fails it is granted exactly under the stated condition |
| Redemption.Sysmodule.ClaimDailyBuffer | sysmodule/sysmodule_request_grants.c:3-97 | the daily buffer is credited only together with its mark in the state, and on books in order not twice; behind a granted claim the books are in order if and only if they were before, a mark of a later day disregarded; whatever fails the books are bounded as for codes; a refused claim leaves rules, target, histories and credits alone or its transaction open; when no step fails it is granted exactly under the stated condition |
| Redemption.Sysmodule.Boot | sysmodule/sysmodule_setup.c:871-880 | a transaction left open is rolled back or still there; undisturbed, granting has stopped, and everything is as copied unless a copy is gone, when the transaction stays |
| Redemption.Sysmodule.Retry | sysmodule/sysmodule_setup.c:856-870 | answering success means that everything is as copied or nothing was open; otherwise the transaction is still there; undisturbed, granting resumes, except over a transaction with a copy gone, which stops it again |
| Redemption.Run | sysmodule/sysmodule_request_grants.c:3-460 | every event of a run of redemptions, claims, starts and retries on non-decreasing days is a step of the books, and before every event up to the first that spoils them nothing has been credited twice and the books are in order or a transaction begun on books in order is open, whatever fails and wherever the power is lost |
| Redemption.BooksSurvive | sysmodule/sysmodule_request_grants.c:3-460 | the same of every sequence of such steps: the books are spoilt only by a request let in on books out of order while no flag stands, or by losing a file with a record of the day of which no copy is kept |
| Redemption.SpoiltForGood | sysmodule/sysmodule_request_grants.c:3-460 | behind such a loss at once, and behind such a request once it is granted and its transaction cleared, the books are out of order and no copy is left |
| Redemption.PerformEvent | sysmodule/sysmodule_request_grants.c:3-460 | every single event is a step of the books, and a code or claim that is let in on books out of order, granted and cleared leaves them out of order without a copy |
| Redemption.OneMoreBufferIff | sysmodule/sysmodule_request_grants.c:56-95 | behind a claimed buffer together with its mark credits and records agree if and only if they did before, a mark of a later day disregarded |
| Redemption.LossIff | platform/switch/fs_storage.c:59-91 | losing the ledger puts the books out of order if and only if it held a record of today or later, losing the state if and only if it held the mark of today |
| Redemption.UnrecordedIsCreditedAgain | sysmodule/sysmodule_request_grants.c:276-460 | in every state a code that is credited and not recorded is credited again by an undisturbed request that is let in |
| Redemption.CutRequestIsCreditedTwice | sysmodule/sysmodule_setup.c:395-402 | a redemption cut behind the saved rules, a start that can neither read the transaction nor write the flag, and the same request again: one code is credited twice |
| Redemption.LostLedgerIsCreditedTwice | platform/switch/fs_storage.c:59-91 | a compaction cut in its gap over a ledger with a code of today: the next undisturbed request with that code credits it again |
| Redemption.LostStateGrantsTheBufferTwice | sysmodule/sysmodule_request_grants.c:155-165 | a claimed buffer, then the state lost by the note of a mistyped code: the next undisturbed claim credits the buffer again |
| Redemption.OneMoreCreditIff | sysmodule/sysmodule_request_grants.c:363-459 | behind a new credit together with its record credits and ledger agree if and only if they did before |
| DockUsage.UsedNs | sysmodule/sysmodule_dock.c:111-123 | a reading is believed only of a running limit of exactly the expected allowance with a remainder within it, and then used and remaining time make up that allowance |
| DockUsage.Dock.SampleUsage | sysmodule/sysmodule_dock.c:169-259 | one sample equals the transition chosen by its verdict, and the charged time stays within a day |
| DockUsage.Dock.Rebaseline | sysmodule/sysmodule_dock.c:125-167 | a new baseline charges an owed interval in full and never invents one for a lost day |
| DockUsage.Dock.SetPolicy | sysmodule/sysmodule_dock.c:308-318 | no charge and no starting point is dropped, nothing at all changes once tracking has started, and tracking starts exactly when some policy is switched on |
| DockUsage.FirstReadingIsFree | sysmodule/sysmodule_dock.c:169-318 | play before the policy was first switched on is never charged: the first reading of that day only sets the starting point |
| DockUsage.RegressionSticks | sysmodule/sysmodule_dock.c:169-259 | after the timer ran backwards no sample, rebaseline, policy change, waiver or enforcement of that day makes the usage known again |
| DockUsage.RegressionBlocks | sysmodule/sysmodule_dock.c:83-95 | from then on a limit holds back all play away from the TV that day if and only if the day is not waived |
| DockUsage.ChargesStay | sysmodule/sysmodule_dock.c:125-259 | within a day the charged time never shrinks |
| DockUsage.TimeIsConserved | sysmodule/sysmodule_dock.c:125-318 | over all events of a day in any order, rebaselines, policy changes, waivers and regressions included, the timer has moved by exactly what was charged, spent at the TV or skipped, and the charge differs from that only by what a full day cut off |
| DockUsage.EveryMinuteIsAccountedFor | sysmodule/sysmodule_dock.c:125-318 | from a rollover with a starting point on, the timer equals charged time, time at the TV, skipped time and what was cut off at every moment |
| DockUsage.NothingIsSkipped | sysmodule/sysmodule_dock.c:125-259 | time is skipped only by a rebaseline, behind a policy switched off, or behind a regression |
| DockUsage.NothingIsCutOff | sysmodule/sysmodule_dock.c:125-259 | with limits of at most a day and a timer that no rebaseline moves back, the saturation at a full day loses nothing |
| DockUsage.BlindStretchIsChargedInFull | sysmodule/sysmodule_dock.c:227-258 | however long the timer could not be read, the next reading charges the whole stretch |
| EyeCareRest.EyeCare.Enforce | sysmodule/sysmodule_core.c:195-443 | one tick equals the specified transition, and reports exactly when a rest began or ended |
| EyeCareRest.EyeCare.SetPolicy | sysmodule/sysmodule_control.c:259-283 | switching on or off starts a fresh cycle; otherwise only the deadline of a running rest changes, which is within the new length of exactly the moments it was within the old length of |
| EyeCareRest.RestIsNeverTooLong | sysmodule/sysmodule_core.c:213-227 | through any clock jumps and policy changes a running rest ends at most the configured length after the last saved tick |
| EyeCareRest.RestEndsInTime | sysmodule/sysmodule_core.c:213-443 | once the clock runs forward, the first saved tick a rest length later ends the rest, with the count at zero and the timer as read behind the lifted restriction, and it no longer holds back grants |
| EyeCareRest.RestIsEarned | sysmodule/sysmodule_core.c:246-283 | in every run from a fresh cycle a rest begins only at a saved reading of the timer, and only if the timer increments measured since the count was last zero add up to the configured play time |
| EyeCareRest.OnlyPlayCounts | sysmodule/sysmodule_core.c:246-283 | the accumulated play time never exceeds the timer increments measured since it was last zero |
| PinBackoff.CooldownSeconds | companion/auth.c:324-328 | the doubling loop computes the capped exponential delay |
| PinBackoff.Auth.VerifyPin | companion/auth.c:281-335 | unreadable records and malformed PINs change nothing; otherwise record, answer and wait are those of one attempt, and a failed write is answered as such and leaves the file alone or has lost it |
| PinBackoff.Auth.SetPin | companion/auth.c:226-251 | a new PIN is stored with no failures and no cooldown, and its record is accepted by the parser exactly at a clock not before 1970; a failed write leaves the file alone or has lost it |
| PinBackoff.WrittenRecordsAreReadableIff | companion/auth.c:129-251 | the file behind a set PIN and any attempts is accepted by the parser if and only if the PIN was set at a clock not before 1970 and no failing write lost it |
| PinBackoff.AttemptsKeepTheFileReadable | companion/auth.c:281-335 | over any attempts, on any clock, a readable file becomes unreadable exactly when a failing write loses it, and no unreadable one becomes readable |
| PinBackoff.PinBeforeTheEpoch | companion/auth.c:226-251 | a PIN set five seconds before 1970 is answered with success, and the next attempt finds an invalid file |
| PinBackoff.FailuresAreSpaced | companion/auth.c:281-335 | in every trace of attempts from a fresh record, on any clock and with any failing writes, the failures that were noted keep at least the sum of their delays from the fifth on |
| PinBackoff.TenFailuresTakeFifteenMinutes | companion/auth.c:281-335 | the n-th consecutive failure that was noted comes at least 930 + 600 (n - 10) seconds after the fifth |
| IniTransform.ReadHeader | companion/album_restriction.c:126-138 | the cursor loops classify a line exactly as header of the wanted section, of another, unclosed, or none |
| IniTransform.TransformIni | companion/album_restriction.c:113-161 | the buffered loop produces the rewritten text exactly when it can be read and fits |
| IniTransform.OutsideIsKept | companion/album_restriction.c:113-161 | the result is the byte-order mark, every line outside the section unchanged and in order, a completed last line, and the wanted section |
| IniTransform.RewriteIsIdempotentIff | companion/album_restriction.c:113-161 | rewriting the result changes nothing if and only if the input is not free of CRLF with its last kept line ending in a bare CR |
| IniTransform.BareCrIsNotIdempotent | companion/album_restriction.c:113-161 | the text of one letter and a bare CR is rewritten twice |
| AlbumState.ParseOfFormat | companion/album_restriction.c:55-85 | every record of any phase, flags and 64-bit checksums that snprintf prints, sscanf reads back as it was |
| AlbumState.FormatFits | companion/album_restriction.c:70-85 | every printed record fits the buffer it is printed into and read from and holds no NUL |
| AlbumRestriction.Store.GetStatus | companion/album_restriction.c:163-211 | without a storage fault the status is the specified one, and a configured answer is never wrong |
| AlbumRestriction.RollbackEnable | companion/album_restriction.c:213-234 | from any point inside enabling, success gives back the original image exactly, and no failure loses an original |
| AlbumRestriction.Enable | companion/album_restriction.c:236-294 | success leaves both originals as backups and the rewritten configuration; with at most one failing step a failed enable leaves every file as it was; with any number no original is lost |
| AlbumRestriction.Restore | companion/album_restriction.c:320-358 | without a storage fault a restore, forced or not, succeeds exactly under the stated condition and leaves exactly the restored image; an unforced one runs only from the configured state, and one that fails leaves the files alone, or a record that is never configured again and that a forced one can finish exactly under the stated condition, or no record and then no restore runs; no backup is ever lost |
| AlbumRestriction.RescueCurrent | companion/album_restriction.c:297-318 | the forced restore moves the present files to the conflict names, all or none unless two steps fail, and refuses over an existing conflict copy |
| AlbumRestriction.EnabledStatus | companion/album_restriction.c:163-294 | after enabling the backups are valid, and the status is configured exactly when rewriting is idempotent on the result |
| AlbumRestriction.RestoreUndoesEnable | companion/album_restriction.c:236-358 | restoring the enabled image gives back every file exactly; forced, it does so if and only if there was an override file |
| AlbumRestriction.EnableThenRestore | companion/album_restriction.c:236-358 | enabling and restoring without a failing step is the identity on the files exactly for inputs that do not end in a bare CR without any CRLF |
| AlbumRestriction.BareCrIsAnAnomaly | companion/album_restriction.c:163-294 | enabling over the two-byte file of a letter and a bare CR leaves a status that is not configured |
| AlbumRestriction.HalfwayIsUnfinished | companion/album_restriction.c:320-358 | an unforced restore stopped behind its first save is never configured again, and a forced one finishes it exactly while the record stands, no backup has moved and no conflict copy is in the way |
| AlbumRestriction.LostRecordIsFinal | companion/album_restriction.c:163-358 | a configured card whose record is lost is an anomaly, or external without backups, and neither enabling nor a restore, forced or not, runs on it |
| AlbumRestriction.NothingHelps | companion/album_restriction.c:236-358 | where a backup stands without a record, any sequence of enables and restores is refused throughout and changes no file, whatever fails |

## Left out

- UpdateInstall.Install: copies and journal writes of an update are whole or absent, and digests stand for contents; a partially copied file is not modelled.
- CrashDisk.Disk.Commit: steps are durable in the order they are taken; what the card does between a step and the next flush is not modelled.
- HotReload.DisableBoot: the bounded retries of one rename are one step that succeeds or fails.
- UpdatePrepare.NobodyElsePrepares: a rollback of an installed transaction that has given its lock up writes live paths without holding any lock (companion/update_install.c:265-291); once another transaction has claimed the card such a step breaks the guarantee; when that can happen and what it does are `UpdatePrepare.OnlyTheGapAdmitsOthers` and `UpdatePrepare.UnlockedPublicationSpoilsIff`, and the lemma says nothing about schedules with it.
- BootFlags.WriteJournal: a torn journal is any proper part of the line that does not parse, not a byte prefix; JSON text is not modelled in the two boot-flag modules.
- InputOwner.Writer.Acquire: calls of different writers do not interleave inside one call, as the clock and the store are shared through whole calls; readers do see the store inside a call.
- InputOwner.Run: exclusivity is per boot id; after the runtime file names another boot, the old boot's writer notices at its next renewal or accepted input.
- NonceLedger.Scan.Visit: JSON parsing is a parameter that must read back every line the program writes, alone or behind white space, and refuse text in front of a record; such parsers exist (`NonceLedger.PlainParserIsGood`).
- Redemption.Run: saves of the state outside a redemption, by enforcement for example, and what resets the flag beside a retry are not events of the run; losing the state in one of them hurts in the same way as in `Redemption.LostStateGrantsTheBufferTwice`.
- Redemption.Sysmodule.VerifyOfflineCode: the token library's verdict is an input, and the day check it makes is taken from it.
- Redemption.Sysmodule.RecoveryRollback: its parts are restored or left one by one; the files it restores beside rules, state, ledger, histories and target are not part of this model.
- DockUsage.Dock.SampleUsage: only consoles without a direct usage counter; the direct-counter path turns on a counter step that is not part of this model.
- EyeCareRest.EyeCare.Enforce: the direct-counter branch and the hand-over of saved settings between simultaneous reasons are not modelled; a tick that waits for a pending confirmation does not reach this code.
- PinBackoff.Auth.VerifyPin: the hash is an uninterpreted function of PIN and salt, and numbers are exact; a clock beyond 2^53 would lose precision in JSON.
- AlbumRestriction.Enable: the checksum is any function of the text, collisions included.
- AlbumState.ParseOfFormat: a flag that does not fit an int is refused and a checksum that does not fit becomes the greatest one; the C standard leaves both undefined, and no record the program prints holds one.
- The bounded activity, redemption and daily-summary histories, which would add list handling only.
- Bedtime, calendar, setup and configuration-backup requests, and the preview of offline codes.
- Switch IPC, sockets, threads, the user interface, localisation, logs, evidence reports and development tools.
