# SelfPrivacy API: backups, tokens, caches, flake inputs and SSH keys

A model, in Dafny 4.11, of the stateful core of the SelfPrivacy API and proofs of what it keeps.

- **Backup rotation** (`Calendar`, `Retention`, `RetentionLaws`, `RetentionPeriods`). The pruning loop with its five
  mutable buckets is a method proved to compute a function `Prune`; the laws are about that function: idempotence,
  monotonicity in the quotas, and that pruning after every backup equals pruning once. A closed form says which
  positions each bucket selects, on a real calendar with ISO weeks.
- **Backup controller** (`BackupStorage`, `BackupProvider`, `BackupController`, `BackupRuns`, `RestorePlan`). Redis and
  the repository are maps by id. Every call to the outside may fail, and may have done part of its work; what happens
  when none does is stated too. Clocks and fresh snapshot ids are parameters, failures are arbitrary choices. A service's
  hooks may change the files they own: database dumps, and folders in which settings are stashed. Snapshots share one
  UTC offset.
- **Stopping services** (`ServiceUnits`): the block in which a service is down while it is restored.
- **Token repository** (`Tokens`, `TokenRuns`). Requests are atomic steps, MD5 is taken as injective, token strings and
  mnemonics are given. The clock is read twice when a recovery key is used, as in the code.
- **Caches** (`TaggedCache`, `SuggestedServices`, `UserData`). The first two share a proof over all interleavings of
  readers and commits; the userdata cache is modelled with dictionaries and lists on the heap. Where a stat
  key or a revision could come back from elsewhere, what is proved holds on condition that it does not.
- **Flake inputs** (`FlakeUrls`, `FlakeServices`). A URL is its parts and a list of query pairs; `urlsplit`, `parse_qsl`
  and their inverses are taken as inverse to each other. Input names are kept apart by their prefix once and for all.
- **SSH keys** (`SshKeys`). The blob reader on bytes, against section 5 of RFC 4251 and section 6.6 of RFC 4253.

Where the code and its own words differ, the model follows the code:

- The error in `sync_date_from_cache` that "should never happen normally" happens exactly when an automatic backup is
  made whose place among the service's automatic snapshots does not survive the rotation: not among the `last` newest,
  not the newest of one of the newest days, months or years, not the head of one of the newest runs of equal weekly
  keys, as far as the quotas go, and not the oldest of all with quota to spare (`Survives`). That takes closed quotas, or
  a stored snapshot at least as new (`NewcomerDropped`).
- The error in `which_snapshots_to_full_restore` that "should be unreachable" is raised when no API snapshot exists.
- Weekly rotation does not keep one snapshot a week around the turn of a year (`WeeklyBucket` has the condition).
- `StoppedService` "reactivates it after you are done if it was active": a service that was reloading is stopped and
  stays down (`StoppedService.Enter` and `Exit`).
- A restore "reverted" to the fail-safe copy has the folders as the preparations left them: a service with databases
  finds dumps there that it did not have (`RevertLeavesDump`), and `post_restore`, which would delete them, does not run.
- A device name can keep a final newline, and the default name has a space (`CleanNameCharacters`).
- A recovery key use that straddles the expiry is not counted (`RecoveryBudget`).
- A suggested-service cache hit can be newer than the tag it matched, though never stale (`AnswersAreLinearizable`):
  exactly when a commit came between the tag and the data of the reader that filled the cache (`HitIsExactlyItsFill`).
- Rewriting the flake drops every attribute of a module input but its URL (`MergedOfSplit`).

`dafny verify dfyconfig.toml` verifies the project.

## Model

| member | source | states |
|---|---|---|
| `Retention.RotationBucket.Offer` | selfprivacy_api/backup/__init__.py:361-370 | One round of the inner loop on a mutable bucket: whether it takes the snapshot, and the bucket it becomes. |
| `Retention.OfferAll` | selfprivacy_api/backup/__init__.py:360-370 | One snapshot is kept if any bucket takes it; every bucket advances, whether or not an earlier one took it. |
| `Retention.PruneSnapsWithQuotas` | selfprivacy_api/backup/__init__.py:324-372 | The interleaved loop over five mutable buckets computes `Prune`, the function all laws below are about. |
| `RetentionLaws.NewestFirstSorts` | selfprivacy_api/backup/__init__.py:327 | The sort puts the same snapshots newest first. |
| `RetentionLaws.NewestFirstOfSorted` | selfprivacy_api/backup/__init__.py:327 | A list sorted already, ties included, is left alone. |
| `RetentionLaws.NewestFirstOfNewer` | selfprivacy_api/backup/__init__.py:327 | The sort is stable: newer snapshots listed first come out as a block in front. |
| `RetentionLaws.PruneIgnoresOrder` | selfprivacy_api/backup/__init__.py:324-372 | With distinct creation times the result does not depend on the order in which the cache lists the snapshots. |
| `RetentionLaws.PruneIdempotent` | selfprivacy_api/backup/__init__.py:324-372 | Pruning twice is pruning once, for every list and every quota setting, weekly key included. |
| `RetentionLaws.PruneMonotone` | selfprivacy_api/backup/__init__.py:324-372 | Raising any quota, -1 counting as infinity, keeps everything kept before; pruning with the larger quotas first changes nothing. |
| `RetentionLaws.PruneStepwise` | selfprivacy_api/backup/__init__.py:273-275 | Pruning the old snapshots before newer ones arrive does not change what pruning keeps then. |
| `RetentionLaws.ThinnedPrunesAlike` | selfprivacy_api/backup/__init__.py:361-370 | Leaving out any snapshots the buckets would drop anyway changes nothing, for any buckets in any state, although another snapshot may become the oldest. |
| `RetentionLaws.PruneOfBetween` | selfprivacy_api/backup/__init__.py:324-384 | Any list between what pruning keeps and the whole list prunes to the same: a rotation that broke off is made good by the next. |
| `RetentionLaws.RunEqualsPruningOnce` | selfprivacy_api/backup/__init__.py:273-275 | Pruning after each arrival of any run ends with what pruning everything ever made, once, keeps. |
| `RetentionLaws.PruneSize` | selfprivacy_api/backup/__init__.py:361-370 | With non-negative quotas at most their sum is kept; `last` of -1 keeps everything. |
| `RetentionLaws.NewestSurvives` | selfprivacy_api/backup/__init__.py:361-370 | The newest snapshot survives exactly when some quota is open; otherwise nothing survives. |
| `RetentionLaws.EmptyOnlyWhenClosed` | selfprivacy_api/backup/__init__.py:361-370 | Any open bucket keeps something, at the latest the oldest snapshot; closed buckets keep nothing. |
| `RetentionPeriods.PruneIsUnion` | selfprivacy_api/backup/__init__.py:358-372 | The interleaved loop refines five independent runs: it keeps, newest first and once each, the positions some bucket alone selects. |
| `RetentionPeriods.BucketInClosedForm` | selfprivacy_api/backup/__init__.py:361-367 | Counter and last key of a bucket at each position: quota minus runs begun, and the key before, until the quota is used up. |
| `RetentionPeriods.TakesIsSelected` | selfprivacy_api/backup/__init__.py:361-370 | A bucket alone takes the heads of the first q runs of equal keys, and the oldest position if quota is left there. |
| `RetentionPeriods.PeriodBucket` | selfprivacy_api/backup/__init__.py:336-355 | Daily, monthly and yearly buckets take the newest snapshot of each of the q newest distinct periods, and the oldest snapshot if quota is left. |
| `RetentionPeriods.SelectedMeansNewestPeriods` | selfprivacy_api/backup/__init__.py:361-370 | The same for any keys that follow time. |
| `RetentionPeriods.LastBucket` | selfprivacy_api/backup/__init__.py:331-335 | The `last` bucket takes exactly the q newest snapshots. |
| `RetentionPeriods.KeptExactlyIfSpared` | selfprivacy_api/backup/__init__.py:324-372 | Of snapshots listed once each, in any order, one is kept exactly if it comes among the `last` newest, is the newest of one of the newest days, months or years, heads one of the newest runs of equal weekly keys, as far as the quotas go, or is the oldest with quota to spare. |
| `RetentionPeriods.NewcomerDropped` | selfprivacy_api/backup/__init__.py:273-275 | With room for one snapshot, one newer than it drops the snapshot just made. |
| `RetentionPeriods.RaisedTooLate` | selfprivacy_api/backup/__init__.py:387-412 | Raising the quotas does not bring back what smaller ones dropped: three snapshots of which the first stays lost. |
| `RetentionPeriods.WeeklyBucket` | selfprivacy_api/backup/__init__.py:341-345 | The weekly bucket keeps the newest snapshot of each of the q newest ISO weeks, for every q, exactly when neighbouring snapshots share the weekly key just when they share an ISO week. |
| `RetentionPeriods.WeeklyPromiseFails` | selfprivacy_api/backup/__init__.py:341-345 | A list on which it does not: of 1 January 2025 and 30 December 2024 it takes both. |
| `Calendar.InstantOrder` | selfprivacy_api/backup/__init__.py:327 | Snapshots are ordered by year, month, day and time of day; within a day, instants differ as the times of day do. |
| `Calendar.NextDay` | selfprivacy_api/backup/__init__.py:834-841 | From one day to the next it is 24 hours, at the end of a month or a year as well. |
| `Calendar.MonthLengths` | selfprivacy_api/backup/__init__.py:336-340 | The lengths of the months, and which years are leap years. |
| `Calendar.IsoWeeksCountFromJanuary4` | selfprivacy_api/backup/__init__.py:344 | The ISO week number counts weeks from the one with 4 January in it. |
| `Calendar.KeysFollowTime` | selfprivacy_api/backup/__init__.py:336-355 | Daily, monthly and yearly keys never decrease with time, on the proleptic Gregorian calendar. |
| `RetentionPeriods.RotationKeysNamePeriods` | selfprivacy_api/backup/__init__.py:330-355 | The rotation functions name positions, days, months and years one to one; the weekly one names a calendar year with an ISO week number. |
| `Calendar.IsoWeekNamesWeek` | selfprivacy_api/backup/__init__.py:344 | The ISO week pair names Monday-to-Sunday weeks one to one. |
| `Calendar.WeeklyKeyInOrdinaryYears` | selfprivacy_api/backup/__init__.py:344 | Where calendar year and ISO year agree, the weekly key tells weeks apart correctly. |
| `Calendar.WeeklyKeyMergesWeeks` | selfprivacy_api/backup/__init__.py:344 | 2 January and 30 December 2024 share a weekly key and no week. |
| `Calendar.WeeklyKeySplitsWeek` | selfprivacy_api/backup/__init__.py:344 | 30 December 2024 and 1 January 2025 share a week and no weekly key. |
| `Calendar.WeeklyKeyFalls` | selfprivacy_api/backup/__init__.py:344 | The weekly key can fall as time goes on. |
| `BackupStorage.Storage.InvalidateSnapshotStorage` | selfprivacy_api/backup/storage.py:61-64 | The deletion loop empties the snapshot cache. |
| `BackupStorage.Storage.GetCachedSnapshots` | selfprivacy_api/backup/storage.py:122-131 | Every cached snapshot once, in some order. |
| `BackupStorage.Storage.SetAutobackupQuotas` | selfprivacy_api/backup/__init__.py:387-412 | A quota below -1 is stored as -1, any other as it is. |
| `BackupController.Backups.ForceSnapshotCacheReload` | selfprivacy_api/backup/__init__.py:639-649 | After a successful reload the cached map is the repository by id; a failed one changes nothing. |
| `BackupController.Backups.ForgetSnapshots` | selfprivacy_api/backup/__init__.py:608-620 | Success removes exactly the batch and brings the cache in step; an empty batch touches nothing; failure removes at most some of the batch. |
| `BackupController.Backups.PruneAutoSnaps` | selfprivacy_api/backup/__init__.py:376-384 | Deletes exactly the automatic snapshots of this service that the quotas drop, and no other snapshot. |
| `BackupController.Backups.OnNewSnapshotCreated` | selfprivacy_api/backup/__init__.py:661-665 | Stamps the service and brings the cache in step. |
| `BackupController.Backups.TakeSnapshot` | selfprivacy_api/backup/__init__.py:260-273 | The new snapshot holds the folders as the service's preparations left them, databases dumped; they change only what the hooks own. Nothing stored before is lost, whatever fails. |
| `BackupController.Backups.BackUp` | selfprivacy_api/backup/__init__.py:248-312 | Success stores the snapshot of the prepared folders, keeps the cache in step, returns the repository's own record and leaves no dump behind. Date syncing fails exactly if the backup is automatic and its snapshot comes at none of the positions that `Survives` lists: by number, day, run of weekly keys, month, year and age. A service is refused exactly if it cannot be backed up; if no call to the outside fails, nothing else goes wrong. Any other failure has stored nothing, or the snapshot with the rotation at most partly done. Files change only where the hooks own them. |
| `BackupController.NewestKept` | selfprivacy_api/backup/__init__.py:300-312 | A snapshot outlives the rotation it triggers exactly if it comes at one of the positions that `Survives` lists; one strictly newer than the others does, unless all quotas are closed. |
| `BackupProvider.FileSystem.RmAllFolderContents` | selfprivacy_api/backup/backuppers/restic_backupper.py:389-407 | Empties one folder or stops half way; other folders are untouched. |
| `BackupProvider.Provider.RestoreInPlace` | selfprivacy_api/backup/backuppers/restic_backupper.py:410-442 | Success leaves the folders exactly as the snapshot has them; nothing outside them changes but what the snapshot holds. |
| `BackupProvider.Provider.RestoreVerified` | selfprivacy_api/backup/backuppers/restic_backupper.py:410-433 | Success leaves the folders as the snapshot has them; a failure leaves the folders before it restored, those after it untouched and at most one in between; nothing outside changes. |
| `BackupProvider.Provider.ForgetSnapshots` | selfprivacy_api/backup/backuppers/restic_backupper.py:477-512 | Removes exactly the named snapshots, all of which must exist; a failure may have removed some. |
| `BackupController.Backups.InplaceRestore` | selfprivacy_api/backup/__init__.py:435-468 | As the snapshot, or as the fail-safe copy whenever the revert succeeds; in every outcome after the fail-safe the copy is in the repository. It has the contents on entry outside what the hooks own, and a revert brings those back exactly if the preparations changed nothing the hooks own. If no call to the outside fails, the snapshot is restored. |
| `BackupController.Backups.RestoreSnapshot` | selfprivacy_api/backup/__init__.py:472-516 | The restore by the strategy asked for around a stopped service, with its hooks: on success the folders are the snapshot's but for dumps and stash deleted afterwards; a revert as above; nothing else changes but what the snapshot holds. A service that was active or activating is active again, also after a failure inside; one that was inactive or failed is as it was; any other ends inactive or failed. It succeeds if no call to the outside fails and the snapshot has what is needed. |
| `BackupController.ExactlyRestoredUnlessDumps` | selfprivacy_api/backup/__init__.py:487-504 | After a successful restore the folders are exactly the snapshot's if and only if the service dumps no database and none of its stash was emptied. |
| `BackupController.SameWithinIfSameOwned` | selfprivacy_api/backup/__init__.py:435-468 | The preparations leave the folders as they were exactly if they leave what the hooks own. |
| `BackupController.RevertLeavesDump` | selfprivacy_api/services/templated_service.py:485-525 | A service with a database: the revert leaves its dump in the folders, where there was none. |
| `BackupProvider.FileSystem.PreBackup` | selfprivacy_api/services/templated_service.py:485-500 | Dumps the databases or rebuilds the stash, and touches nothing else. |
| `BackupProvider.FileSystem.CleanUp` | selfprivacy_api/services/templated_service.py:502-525 | Deletes the dumps, and in the folders does nothing else but delete what the hooks own. |
| `BackupProvider.FileSystem.PostRestore` | selfprivacy_api/services/templated_service.py:527-545 | Fails if a dump is missing; afterwards there is none. |
| `ServiceUnits.StoppedService.Enter` | selfprivacy_api/services/service.py:568-584 | Inside the block a service that can be stopped is inactive or failed, and untouched if it was; its status on entry is remembered. |
| `ServiceUnits.StoppedService.Exit` | selfprivacy_api/services/service.py:586-598 | A service whose status was active or activating is active again; any other is left as it is. |
| `BackupRuns.RunKeepsPrunedHistory` | selfprivacy_api/backup/__init__.py:248-289 | After any run of backups of any services and kinds, some of which fail anywhere on their way, under changing quotas, nothing is lost that pruning a service's whole history once with quotas at most all that were set would keep, whatever order Redis lists keys in. |
| `BackupRuns.RunLeavesPrunedHistory` | selfprivacy_api/backup/__init__.py:248-289 | If a service's last automatic backup succeeded, under quotas no larger than any before, exactly what they keep of its whole history is left, whatever failed before. |
| `BackupRuns.RunKeepsOtherSnapshots` | selfprivacy_api/backup/__init__.py:273-275 | No run, whatever fails in it, ever loses an explicit or fail-safe snapshot. |
| `BackupRuns.QuotasAreLastSet` | selfprivacy_api/backup/__init__.py:387-412 | At each moment of a run the quotas are those last set. |
| `RestorePlan.LastBackupSlice` | selfprivacy_api/backup/__init__.py:845-874 | The services' newest close snapshots in order, then the newest API snapshot; empty without one. |
| `RestorePlan.SliceMembers` | selfprivacy_api/backup/__init__.py:862-870 | A snapshot is in the slice exactly when its registered service contributes it. |
| `RestorePlan.SliceIsRecent` | selfprivacy_api/backup/__init__.py:825-841 | Each is its service's newest, at most one period from the API snapshot, or 24 hours if there is none, and none is the API's. |
| `RestorePlan.SliceIsComplete` | selfprivacy_api/backup/__init__.py:834-870 | The newest snapshot of a registered service is in the slice exactly if it is within m minutes of the API's, or within 24 hours without a period. |
| `RestorePlan.SliceOnePerService` | selfprivacy_api/backup/__init__.py:862-870 | At most one snapshot per service. |
| `RestorePlan.SliceFollowsRegistry` | selfprivacy_api/backup/__init__.py:862-870 | The snapshots come in the order in which their services are registered. |
| `RestorePlan.WhichSnapshotsToFullRestore` | selfprivacy_api/backup/tasks.py:184-201 | Removing while iterating still gives the enabled members in order, then the API snapshot once; it raises exactly when there is no API snapshot, which the code calls unreachable. |
| `RestorePlan.FirstOfNameDecides` | selfprivacy_api/backup/tasks.py:175-181 | A snapshot's service counts as enabled exactly if the first registered service of its name is. |
| `RestorePlan.PlanMembers` | selfprivacy_api/backup/tasks.py:184-201 | What is restored before the API snapshot is exactly, of each enabled service, its newest snapshot if it is that close. |
| `RestorePlan.EligibleInOrder` | selfprivacy_api/backup/tasks.py:196-198 | The enabled members keep their order. |
| `RestorePlan.RestoreAll` | selfprivacy_api/backup/tasks.py:218-237 | The snapshots up to the first that fails are restored. Progress goes up by 99 divided by their number, never falls, and ends at 99 when all are; the division is safe. |
| `RestorePlan.DoFullRestore` | selfprivacy_api/backup/tasks.py:204-237 | The whole restore: unless everything succeeded the API snapshot has not been restored. |
| `RestorePlan.BackUpMultiple` | selfprivacy_api/backup/tasks.py:116-135 | The same with 100: services up to the first failure, progress by 100 divided by their number, nothing to do for none. |
| `Tokens.TokensRepository.GetTokens` | selfprivacy_api/repositories/tokens/redis_tokens_repository.py:44-65 | Every stored token once, with distinct names. |
| `Tokens.TokensRepository.GetTokenByTokenString` | selfprivacy_api/repositories/tokens/abstract_tokens_repository.py:23-30 | A token with that string, or not found exactly if there is none. |
| `Tokens.TokensRepository.GetTokenByName` | selfprivacy_api/repositories/tokens/abstract_tokens_repository.py:32-39 | The token under the key of that name; by name uniqueness the first is the only one. |
| `Tokens.TokensRepository.IsTokenValid` | selfprivacy_api/repositories/tokens/abstract_tokens_repository.py:70-72 | True exactly if some stored token has that string. |
| `Tokens.TokensRepository.IsTokenNameExists` | selfprivacy_api/repositories/tokens/abstract_tokens_repository.py:74-76 | True exactly if the name is in use. |
| `Tokens.TokensRepository.IsTokenNamePairValid` | selfprivacy_api/repositories/tokens/abstract_tokens_repository.py:78-88 | True exactly if the one token of that name has that string. |
| `Tokens.CleanNameCharacters` | selfprivacy_api/repositories/tokens/abstract_tokens_repository.py:193-200 | What becomes of each character: letters and digits stay, others become underscores. The name is alphanumeric or underscores, as documented, exactly unless it was empty or alphanumeric with a final newline. |
| `Tokens.UniqueNameIsShortest` | selfprivacy_api/repositories/tokens/abstract_tokens_repository.py:192-203 | A unique name is free; it is the clean name and decimal digits, and every shorter one is taken. |
| `Tokens.TokensRepository.MakeUniqueDeviceName` | selfprivacy_api/repositories/tokens/abstract_tokens_repository.py:192-203 | Ends for every sequence of digits within as many rounds as there are tokens, with a free non-empty name: the clean name and the shortest series tried. |
| `Tokens.TokensRepository.CreateToken` | selfprivacy_api/repositories/tokens/abstract_tokens_repository.py:45-52 | Adds one token under an unused key; overwrites nothing. |
| `Tokens.TokensRepository.DiscoverTokenKey` | selfprivacy_api/repositories/tokens/redis_tokens_repository.py:67-72 | Finds a key holding exactly this token, if any does. |
| `Tokens.TokensRepository.DeleteToken` | selfprivacy_api/repositories/tokens/redis_tokens_repository.py:74-80 | Removes exactly that token, or reports that it is not stored. |
| `Tokens.TokensRepository.RefreshToken` | selfprivacy_api/repositories/tokens/abstract_tokens_repository.py:58-68 | Only the token string changes, same name and date; every other token is untouched. |
| `Tokens.TokensRepository.Reset` | selfprivacy_api/repositories/tokens/abstract_tokens_repository.py:174-178 | The deletion loop leaves no token and neither key. |
| `Tokens.TokensRepository.GetNewApiRecoveryKey` | selfprivacy_api/actions/api_tokens.py:125-140 | Refused exactly if the expiry is past or the number of uses not positive, with the error of each; exactly when the key would be invalid when issued. |
| `Tokens.TokensRepository.DecrementRecoveryToken` | selfprivacy_api/repositories/tokens/redis_tokens_repository.py:112-121 | A use is counted only if the key is limited and still valid at the second reading of the clock. |
| `Tokens.TokensRepository.UseMnemonicRecoveryKey` | selfprivacy_api/repositories/tokens/abstract_tokens_repository.py:104-124 | Mints exactly if the key is not past its expiry, has a use left or is unlimited, and the phrase is right, with the error of each refusal; a refusal changes nothing. |
| `Tokens.TokensRepository.GetNewDeviceKey` | selfprivacy_api/models/tokens/new_device_key.py:39-49 | The key expires 600 seconds after it is issued. |
| `Tokens.TokensRepository.DeleteNewDeviceKey` | selfprivacy_api/actions/api_tokens.py:163-165 | Revokes the key and touches nothing else. |
| `Tokens.TokensRepository.UseMnemonicNewDeviceKey` | selfprivacy_api/repositories/tokens/abstract_tokens_repository.py:155-172 | Mints exactly if the key is not past its expiry and the phrase is right, and deletes the key; the error of each refusal. |
| `Tokens.TokensRepository.DeleteApiToken` | selfprivacy_api/actions/api_tokens.py:73-80 | Refuses the caller's own token; otherwise deletes exactly the named one. Every token with the caller's string survives. |
| `Tokens.TokensRepository.RefreshApiToken` | selfprivacy_api/actions/api_tokens.py:84-89 | Fails exactly for an unknown token; otherwise refreshes the caller's. |
| `TokenRuns.RunKeepsKeyed` | selfprivacy_api/repositories/tokens/redis_tokens_repository.py:107-110 | In every reachable state each token sits under the key of its own name. |
| `TokenRuns.UntouchedTokensStay` | selfprivacy_api/repositories/tokens/abstract_tokens_repository.py:45-68 | A token no request named is there unchanged after any run. |
| `TokenRuns.StoreStaysNonEmpty` | selfprivacy_api/actions/api_tokens.py:73-80 | A non-empty store stays non-empty over any run without a reset. |
| `TokenRuns.RecoveryBudget` | selfprivacy_api/repositories/tokens/abstract_tokens_repository.py:104-124 | Uses left plus tokens minted is the number granted, one more exactly once a use straddled the expiry; never more tokens than granted. |
| `TokenRuns.StraddlingUseIsNotCounted` | selfprivacy_api/repositories/tokens/redis_tokens_repository.py:112-121 | A use admitted before the expiry and counted after it mints a token without being counted. |
| `TokenRuns.NothingAfterExpiry` | selfprivacy_api/models/tokens/recovery_key.py:28-36 | No token is minted on an expired recovery key, over any run. |
| `TokenRuns.OneTokenPerDeviceKey` | selfprivacy_api/repositories/tokens/abstract_tokens_repository.py:151-172 | Over any run of requests, revocations included, each new-device key issued mints at most one token. |
| `TokenRuns.EnrolledInTime` | selfprivacy_api/models/tokens/new_device_key.py:24-49 | Every new-device token is minted at most 600 seconds after its key was issued, and nothing used, revoked or replaced the key in between. |
| `TaggedCache.RunKeepsInv` | selfprivacy_api/services/suggested.py:84-102 | Under any interleaving a cached entry's data is never older than its tag. |
| `TaggedCache.AnswersAreLinearizable` | selfprivacy_api/services/suggested.py:68-106 | Every answer is data that was current at some moment between call and return, for any number of readers and commits, with tags that never recur. |
| `TaggedCache.HitIsExactlyItsFill` | selfprivacy_api/services/suggested.py:84-102 | A hit is the data current when its tag was read exactly when no commit came between the two reads of the reader that filled the cache; otherwise it is the newer data that reader saw. |
| `TaggedCache.EntryWasFilled` | selfprivacy_api/services/suggested.py:94-102 | Whatever the cache holds, some reader stored it, having read its tag and then its data in one call. |
| `TaggedCache.HitIsCurrentAtTag` | selfprivacy_api/services/__init__.py:353-363 | In particular a hit is that data if no commit came between reading the tag and comparing it, as when both happen in one step. |
| `TaggedCache.HitCanBeNewerThanTag` | selfprivacy_api/services/suggested.py:84-92 | A run in which a hit is newer than its tag. |
| `TaggedCache.RecurringTagBreaksCoherence` | selfprivacy_api/services/suggested.py:84-92 | A run in which a tag recurs and a reader gets data that was not current at any time during its call. |
| `SuggestedServices.ServiceCache.Commit` | selfprivacy_api/services/suggested.py:38-44 | Tag and data change together, whatever the revision. |
| `SuggestedServices.ServiceCache.Get` | selfprivacy_api/services/suggested.py:68-106 | The reader as written, other tasks running at each await: it returns some version's data, and unless a revision came back, of a version that was current during the call; afterwards the cache holds it under the tag read. |
| `SuggestedServices.ServiceCache.GetTemplated` | selfprivacy_api/services/__init__.py:348-369 | The installed services' reader: it hits exactly if the cached key is the present one, and then changes nothing; unless a key came back the answer is the version current at the call. What it missed it caches. It fails only if the definition was missing at some moment of the call, and always if it was at the start. |
| `SuggestedServices.ServiceCache.Sync` | selfprivacy_api/services/suggested.py:31-65 | One module ends at the listed revision, fetched only if it was not there; if the fetch fails it stays as it is. |
| `UserData.Container.DeepCopy` | selfprivacy_api/utils/__init__.py:89-90 | An equal tree that shares no dictionary or list with the original, at any depth. |
| `UserData.Load` | selfprivacy_api/utils/__init__.py:94-101 | Parsing gives new dictionaries and lists with the file's contents. |
| `UserData.JsonFileCache.ReadJsonCached` | selfprivacy_api/utils/__init__.py:85-101 | Returns the file's present contents exactly if what is cached under the present key are these, in dictionaries and lists neither the cache nor anybody else holds; fails exactly if the file is gone. |
| `UserData.JsonFileCache.ReadUserData` | selfprivacy_api/utils/__init__.py:136-153 | A read block: the file's contents; a missing secrets file is created as an empty dictionary and read, a missing userdata file is an error and stays missing. |
| `UserData.JsonFileCache.BeginWrite` | selfprivacy_api/utils/__init__.py:107-124 | The write block gets the contents parsed anew; a missing secrets file is created as an empty dictionary, a missing userdata file refused. |
| `UserData.JsonFileCache.EndWrite` | selfprivacy_api/utils/__init__.py:126-133 | A committed block's data is what the file holds; an exception leaves the file as it was; the cache forgets it either way, so the stat key may stay as it was. |
| `UserData.Replay` | selfprivacy_api/utils/__init__.py:85-153 | Over every run of reads, committed and aborted writes, and foreign writes and removals, reads return what the plain file holds, although anything ever given out may be changed at any time and depth, and the process's own writes may leave the stat key as it was. |
| `UserData.SameKeyGoesUnnoticed` | selfprivacy_api/utils/__init__.py:85-90 | If another process leaves the stat key or brings it back, its change goes unnoticed. |
| `UserData.ReadSeesLastChange` | selfprivacy_api/utils/__init__.py:85-153 | What a read of a run returns, by the last operation that could change the file: a foreign write, a write block, a removal. |
| `UserData.FirstReadOpensTheFile` | selfprivacy_api/utils/__init__.py:107-147 | What the first read returns, for each kind of file, there or missing. |
| `FlakeUrls.SetFlakeRefDict` | selfprivacy_api/services/flake_service_manager.py:23-32 | Sets `ref` in the query dictionary and changes nothing else, however often it occurs. |
| `FlakeUrls.SetFlakeRefInPlace` | selfprivacy_api/services/flake_service_manager.py:26-31 | Parameters keep their places; a ref that was not there comes last. |
| `FlakeUrls.ModuleUrlDict` | selfprivacy_api/services/flake_service_manager.py:35-44 | Sets `dir` in the query dictionary and changes nothing else. |
| `FlakeUrls.ModuleUrlQuery` | selfprivacy_api/services/flake_service_manager.py:35-44 | The module URL ends with its only `dir`, after all other parameters of the configuration. |
| `FlakeUrls.ModuleUrlAppends` | selfprivacy_api/services/flake_service_manager.py:35-44 | Without a `dir` in the configuration, the module URL is that URL with `dir` appended. |
| `FlakeUrls.ConfigUrls` | selfprivacy_api/services/flake_service_manager.py:15 | The default configuration URL and that of the SSO branch, as text. |
| `FlakeUrls.ModuleFollows` | selfprivacy_api/services/flake_service_manager.py:47-61 | When a module built for one configuration counts as following another. |
| `FlakeUrls.ModuleFollowsItsConfig` | selfprivacy_api/services/flake_service_manager.py:35-61 | A built module is recognised as its configuration's exactly when that URL has no `dir`. |
| `FlakeUrls.FollowersAreModules` | selfprivacy_api/services/flake_service_manager.py:47-61 | What follows a configuration is the module URL of some service in it, up to order and repetition of parameters; nothing follows one with a `dir`. |
| `FlakeUrls.DefaultModuleIsNotSso` | selfprivacy_api/migrations/switch_to_flakes.py:11 | A module of the default configuration is not one of the SSO branch. |
| `FlakeServices.NamesRoundTrip` | selfprivacy_api/services/flake_service_manager.py:92-97 | Module inputs are those that start with `sp-module-`; taking the prefix off input names and putting it on again loses nothing. |
| `FlakeServices.SplitOfMerged` | selfprivacy_api/services/flake_service_manager.py:125-127 | Merging and then splitting gives both parts back. |
| `FlakeServices.MergedOfSplit` | selfprivacy_api/services/flake_service_manager.py:92-127 | Splitting and then merging gives the file back exactly when no module input has attributes besides its URL. |
| `FlakeServices.SplitInputs` | selfprivacy_api/services/flake_service_manager.py:92-97 | The loop splits the inputs, and fails exactly if a module has no URL. |
| `FlakeServices.FlakeServiceManager.Enter` | selfprivacy_api/services/flake_service_manager.py:76-107 | Entering reads both parts. |
| `FlakeServices.FlakeServiceManager.Exit` | selfprivacy_api/services/flake_service_manager.py:109-164 | The file is written exactly if the block did not raise, something changed and no legacy directory forbids it; then it is the merge. |
| `FlakeServices.SwitchServices` | selfprivacy_api/actions/system.py:208-210 | The loop that assigns into the dictionary it walks computes `Switched`. |
| `FlakeServices.SetSystemUpdateUrl` | selfprivacy_api/actions/system.py:205-211 | The configuration input gets the new URL, the services are switched with their names kept, all other inputs stay; with the exact condition of each error, after which the file is untouched. |
| `FlakeServices.SwitchableMeans` | selfprivacy_api/actions/system.py:205-211 | What it asks of the file: every module has a URL, the configuration input is there, and has a URL too unless there is no module. |
| `FlakeServices.SwitchedFileAt` | selfprivacy_api/actions/system.py:205-211 | What becomes of each input, module by module. |
| `FlakeServices.SwitchMovesFollowers` | selfprivacy_api/actions/system.py:208-210 | Followers of the old configuration follow the new one exactly if it has no `dir`; others are left alone. |
| `FlakeServices.SwitchThereAndBack` | selfprivacy_api/actions/system.py:205-211 | For any two URLs, there and back is the identity exactly when followers of the first are written as the second switch writes them, and of the other services only canonical modules of the first follow the second. |
| `FlakeServices.FileThereAndBack` | selfprivacy_api/actions/system.py:205-211 | Two switches bring the file back exactly when the services come back and no module input has other attributes, or nothing changed at all. |
| `FlakeServices.IsMigrationNeeded` | selfprivacy_api/migrations/switch_to_flakes.py:23-28 | True exactly if some service in the file is of the SSO branch; the file stays as it is. |
| `FlakeServices.Migrate` | selfprivacy_api/migrations/switch_to_flakes.py:30-36 | Afterwards no service in the file is of the SSO branch and all other inputs stay. Refused exactly if the file cannot be read, or the migration is needed and the legacy directory is there; then the file is untouched. |
| `FlakeServices.MigrationSettles` | selfprivacy_api/migrations/switch_to_flakes.py:23-36 | One migration is enough and a second changes nothing. |
| `SshKeys.ReadString` | selfprivacy_api/utils/ssh.py:16-22 | Reading a length-prefixed string undoes writing it (section 5 of RFC 4251). |
| `SshKeys.WriteString` | selfprivacy_api/utils/ssh.py:16-22 | Every blob that starts with a complete string is a written string and the rest. |
| `SshKeys.MpintIsCanonical` | selfprivacy_api/utils/ssh.py:34-39 | The mpint encoding used below is the shortest with a clear sign bit. |
| `SshKeys.FromMpint` | selfprivacy_api/utils/ssh.py:38 | Reading an mpint gives the number, leading zero byte or not. |
| `SshKeys.BitLengthAbove` | selfprivacy_api/utils/ssh.py:39 | The bit length exceeds k exactly from 2^k on. |
| `SshKeys.ModulusOfBlob` | selfprivacy_api/utils/ssh.py:26-39 | What the modulus reader computes on every byte string, slices past the end included. |
| `SshKeys.ModulusRoundTrip` | selfprivacy_api/utils/ssh.py:26-39 | Writing exponent and modulus and reading them gives the modulus's bit length. |
| `SshKeys.RsaLayoutAccepted` | selfprivacy_api/utils/ssh.py:63-71 | A blob laid out as in section 6.6 of RFC 4253 is accepted exactly when 2^2047 <= n < 2^16384. |
| `SshKeys.RsaKeyAccepted` | selfprivacy_api/utils/ssh.py:63-71 | The same for all natural numbers e and n short enough for a length field. |
| `SshKeys.OnlyRsaLayoutAccepted` | selfprivacy_api/utils/ssh.py:49-71 | Nothing else is accepted as an RSA key: every accepted blob has that layout, possibly with trailing bytes. |
| `SshKeys.OtherTypesAccepted` | selfprivacy_api/utils/ssh.py:52-78 | Any blob is accepted as a key of another type exactly if it starts with a string that is that type in ASCII, and the type is one of six. |

## Left out

- GraphQL, routes, templates, translation, telemetry and job records: plumbing around the modelled actions; of jobs only the progress values are modelled.
- restic, rclone, systemd, mounts, Nix evaluation and file locking: foreign; the backup repository is a map, and its calls may fail at any point.
- The free-space check before a restore: it may refuse. The databases themselves and the settings of the API service: hooks are modelled by the files they own.
- BackupProvider.Provider.RestoreVerified: not all-or-nothing, because the code takes no fail-safe copy for this strategy.
- BackupController.Backups.InplaceRestore: after a revert that fails itself, what the folders hold is open.
- ServiceUnits.StoppedService.Exit: a status changed by others while the service is stopped is not modelled.
- `prune_all_autosnaps` and `forget_all_snapshots`: loops over the modelled per-service and per-batch operations.
- Rotation apart from a backup (`prune_all_autosnaps` after the quotas are set) is not an event of the runs.
- When an automatic backup is due: a comparison of stamps; the period that `do_autobackup` sets temporarily is not restored on its early return and its error path.
- Redis hash encoding, expiry timers and partial failures of Redis: fields are stored as values.
- MD5, random strings, BIP-39 and base64: injective, fresh or given as already decoded.
- Interleaving inside one token request: requests are atomic.
- JSON numbers, booleans and nulls: leaves are text. A list is a container whose keys are its positions. Serialisation and parsing are inverse.
- Percent-encoding of URLs and the Nix text of the flake file.
- The listing loop around the suggested services' reader, and the skipping of installed ones: one service is modelled.
- Device-name sanitising beyond ASCII classes, DNS records, monitoring, the PAM module and service moves between volumes.
- Retention.RotationBucket.Offer: the rotation function is a period tag instead of a stored lambda.
- TokenRuns.StoreStaysNonEmpty: takes API deletions to come from callers whose token is stored, as authentication ensures.
- UserData.Replay: assumes that a file created or written by another process gets a stat key never seen, which modification times of limited precision may not guarantee; SameKeyGoesUnnoticed shows what happens otherwise. The process's own writes need no such thing.
