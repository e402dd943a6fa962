/** The backup controller: backing up, forgetting, rotating and restoring in place, over a
    repository that may fail and a Redis cache of its listing. */
module BackupController {
  import opened Wrappers
  import opened Calendar
  import opened Retention
  import opened RetentionLaws
  import RetentionPeriods
  import opened BackupStorage
  import opened BackupProvider
  import opened ServiceUnits

  predicate IsAutoOf(snap: Snapshot, serviceId: string) {
    snap.serviceName == serviceId && snap.reason == AUTO
  }

  /** The automatic snapshots of one service in a listing. */
  ghost function AutoSnaps(listing: map<string, Snapshot>, serviceId: string): set<Snapshot> {
    set id | id in listing && IsAutoOf(listing[id], serviceId) :: listing[id]
  }

  /** The ids that rotating `serviceId` deletes, when the cache lists its automatic snapshots in
      `order`: those of its automatic snapshots that the quotas drop. */
  ghost function Dropped(listing: map<string, Snapshot>, serviceId: string, order: seq<Snapshot>, q: Quotas)
    : set<string>
  {
    set id | id in listing && IsAutoOf(listing[id], serviceId) && listing[id] !in Prune(order, q)
  }

  /** `order` lists the automatic snapshots of `serviceId` once each. */
  ghost predicate Orders(order: seq<Snapshot>, listing: map<string, Snapshot>, serviceId: string) {
    multiset(order) == multiset(AutoSnaps(listing, serviceId))
  }

  /** `made` is stored and, if it is automatic, the automatic snapshots of its service, listed in
      `order`, are rotated. */
  ghost predicate Rotated(before: Repository, made: Stored, order: seq<Snapshot>, after: Repository, q: Quotas) {
    var id, serviceId := made.snapshot.id, made.snapshot.serviceName;
    var full := before[id := made];
    && id !in before
    && if made.snapshot.reason != AUTO then after == full
       else Orders(order, Listing(full), serviceId) && after == full - Dropped(Listing(full), serviceId, order, q)
  }

  /** One successful backup that stores `made`, whatever the order of the listing. */
  ghost predicate BackedUp(before: Repository, made: Stored, after: Repository, q: Quotas) {
    exists order :: Rotated(before, made, order, after, q)
  }

  /** A backup that failed after `made` was stored, complete or not: the rotation has not begun, or
      stopped on its way, or was finished. */
  ghost predicate CutShort(before: Repository, made: Stored, after: Repository, q: Quotas) {
    var id, serviceId := made.snapshot.id, made.snapshot.serviceName;
    var full := before[id := made];
    && id !in before
    && (after == full
        || (made.snapshot.reason == AUTO
            && exists order :: Orders(order, Listing(full), serviceId)
                               && LosesAtMost(full, Dropped(Listing(full), serviceId, order, q), after)))
  }

  lemma RotatedIsCutShort(before: Repository, made: Stored, order: seq<Snapshot>, after: Repository, q: Quotas)
    requires Rotated(before, made, order, after, q)
    ensures CutShort(before, made, after, q)
  {
  }

  /** Whatever happened, only automatic snapshots of the service are gone. */
  lemma CutShortKeeps(before: Repository, made: Stored, after: Repository, q: Quotas)
    requires CutShort(before, made, after, q)
    ensures after.Keys <= before.Keys + {made.snapshot.id}
    ensures forall id :: id in before ==>
              || (made.snapshot.reason == AUTO && IsAutoOf(before[id].snapshot, made.snapshot.serviceName))
              || (id in after && after[id] == before[id])
  {
    var full := before[made.snapshot.id := made];
    if after != full {
      var order :| LosesAtMost(full, Dropped(Listing(full), made.snapshot.serviceName, order, q), after);
    }
  }

  /** The new snapshot is there after the rotation exactly if it is spared. */
  lemma RotatedSpares(before: Repository, made: Stored, order: seq<Snapshot>, after: Repository, q: Quotas)
    requires WellFormed(before) && Rotated(before, made, order, after, q)
    ensures made.snapshot.id in after <==>
              made.snapshot.reason != AUTO || RetentionPeriods.Spared(q, order, made.snapshot)
    ensures made.snapshot.id in after ==> after[made.snapshot.id] == made
    ensures made.snapshot.reason == AUTO && !KeepsSomething(q) ==> made.snapshot.id !in after
    ensures made.snapshot.id !in after && KeepsSomething(q) ==>
              exists id :: id in before && IsAutoOf(before[id].snapshot, made.snapshot.serviceName)
                           && Instant(before[id].snapshot.createdAt) >= Instant(made.snapshot.createdAt)
  {
    var x := made.snapshot;
    if x.reason == AUTO {
      ListingOfMore(before, x.id, made);
      NewestKept(order, Listing(before[x.id := made]), x.id, x.serviceName, q);
    }
  }

  lemma ListingOfMore(repo: Repository, id: string, s: Stored)
    ensures Listing(repo[id := s]) == Listing(repo)[id := s.snapshot]
  {
  }

  /** The snapshots of a list that are automatic ones of `serviceId`, in order. */
  function AutoOnly(snaps: seq<Snapshot>, serviceId: string): (r: seq<Snapshot>)
    ensures forall x :: x in r <==> x in snaps && IsAutoOf(x, serviceId)
    ensures forall x :: IsAutoOf(x, serviceId) ==> multiset(r)[x] == multiset(snaps)[x]
  {
    if snaps == [] then []
    else
      var rest := AutoOnly(snaps[1..], serviceId);
      assert snaps == [snaps[0]] + snaps[1..];
      if IsAutoOf(snaps[0], serviceId) then [snaps[0]] + rest else rest
  }

  /** The elements of a list that another list lacks, in order. */
  function NotIn(snaps: seq<Snapshot>, kept: seq<Snapshot>): (r: seq<Snapshot>)
    ensures forall x :: x in r <==> x in snaps && x !in kept
  {
    if snaps == [] then []
    else (if snaps[0] in kept then [] else [snaps[0]]) + NotIn(snaps[1..], kept)
  }

  lemma AutoOnlyOrders(all: seq<Snapshot>, listing: map<string, Snapshot>, serviceId: string)
    requires Lists(all, listing)
    ensures Orders(AutoOnly(all, serviceId), listing, serviceId)
  {
    var r, autos := AutoOnly(all, serviceId), AutoSnaps(listing, serviceId);
    forall x ensures multiset(r)[x] == multiset(autos)[x] {
      assert x in multiset(listing.Values) <==> x in multiset(all);
      if IsAutoOf(x, serviceId) {
        assert multiset(r)[x] == multiset(listing.Values)[x];
      } else {
        assert x !in multiset(r);
      }
    }
  }

  datatype RestoreOutcome =
    | Restored
    | NoFailsafe(e: Error)
    | Reverted(failsafe: string)
    | RevertFailed(failsafe: string)

  /** How far a restore got. */
  datatype Attempt = NoAttempt | InPlace(outcome: RestoreOutcome) | Verified(ok: bool)

  class Backups {
    const storage: Storage
    const provider: Provider
    const fs: FileSystem

    constructor (storage: Storage, provider: Provider, fs: FileSystem)
      ensures this.storage == storage && this.provider == provider && this.fs == fs
    {
      this.storage := storage;
      this.provider := provider;
      this.fs := fs;
    }

    ghost predicate Valid()
      reads this, storage, provider
    {
      WellFormed(provider.repo) && KeyedById(storage.snapshots)
    }

    /** The cached map equals the repository's listing. */
    ghost predicate InStep()
      reads this, storage, provider
    {
      storage.snapshots == Listing(provider.repo)
    }

    /** Refills the cache from the repository. */
    method ForceSnapshotCacheReload() returns (r: Result<(), Error>)
      requires Valid()
      modifies storage`snapshots
      ensures Valid()
      ensures r.Ok? ==> InStep()
      ensures r.Err? ==> r.error == ProviderFailed && unchanged(storage)
      ensures provider.reliable ==> r.Ok?
    {
      var upstream := provider.GetSnapshots();
      if upstream.Err? {
        return Err(upstream.error);
      }
      var list := upstream.value;
      storage.InvalidateSnapshotStorage();
      for i := 0 to |list|
        invariant forall id :: id in storage.snapshots ==>
                    id in provider.repo && storage.snapshots[id] == provider.repo[id].snapshot
        invariant forall j :: 0 <= j < i ==> list[j].id in storage.snapshots
      {
        assert list[i] in list;
        storage.CacheSnapshot(list[i]);
      }
      forall id | id in provider.repo ensures id in storage.snapshots {
        var j :| 0 <= j < |list| && list[j] == provider.repo[id].snapshot;
      }
      return Ok(());
    }

    /** Deletes a batch and brings the cache in step. An empty batch touches nothing, not even a
        stale cache. A failure deletes at most some of the batch. */
    method ForgetSnapshots(snapshots: seq<Snapshot>) returns (r: Result<(), Error>)
      requires Valid()
      modifies storage`snapshots, provider
      ensures Valid()
      ensures snapshots == [] ==> r.Ok? && unchanged(storage) && unchanged(provider)
      ensures r.Ok? && snapshots != [] ==> InStep()
      ensures r.Ok? ==> provider.repo == old(provider.repo) - (set s | s in snapshots :: s.id)
      ensures r.Err? ==> r.error == ProviderFailed && unchanged(storage)
      ensures LosesAtMost(old(provider.repo), (set s | s in snapshots :: s.id), provider.repo)
      ensures provider.reliable && (forall s :: s in snapshots ==> s.id in old(provider.repo)) ==> r.Ok?
    {
      var ids := seq(|snapshots|, i requires 0 <= i < |snapshots| => snapshots[i].id);
      assert (set id | id in ids) == set s | s in snapshots :: s.id by {
        IdsOf(snapshots, ids);
      }
      if |ids| == 0 {
        return Ok(());
      }
      var forgotten := provider.ForgetSnapshots(ids);
      if forgotten.Err? {
        return forgotten;
      }
      r := ForceSnapshotCacheReload();
    }

    lemma IdsOf(snapshots: seq<Snapshot>, ids: seq<string>)
      requires |ids| == |snapshots| && forall i :: 0 <= i < |ids| ==> ids[i] == snapshots[i].id
      ensures forall id :: id in ids <==> id in set s | s in snapshots :: s.id
    {
      forall id | id in set s | s in snapshots :: s.id ensures id in ids {
        var s :| s in snapshots && s.id == id;
        var i :| 0 <= i < |snapshots| && snapshots[i] == s;
        assert ids[i] == id;
      }
      forall id | id in ids ensures id in set s | s in snapshots :: s.id {
        var i :| 0 <= i < |ids| && ids[i] == id;
        assert snapshots[i] in snapshots;
      }
    }

    /** Deletes the automatic snapshots of a service that the quotas drop, and nothing else. */
    method PruneAutoSnaps(service: Service) returns (r: Result<(), Error>, ghost order: seq<Snapshot>)
      requires Valid()
      modifies storage`snapshots, provider
      ensures Valid()
      ensures Orders(order, old(storage.snapshots), service.id)
      ensures var dropped := Dropped(old(storage.snapshots), service.id, order, storage.quotas);
              && (r.Ok? ==> provider.repo == old(provider.repo) - dropped)
              && LosesAtMost(old(provider.repo), dropped, provider.repo)
      ensures r.Ok? ==> InStep() || unchanged(storage)
      ensures r.Ok? && old(InStep()) ==> InStep()
      ensures provider.reliable && old(InStep()) ==> r.Ok?
      ensures r.Err? ==> r.error == ProviderFailed && unchanged(storage)
    {
      var all := storage.GetCachedSnapshots();
      var autoSnaps := AutoOnly(all, service.id);
      order := autoSnaps;
      AutoOnlyOrders(all, storage.snapshots, service.id);
      var newSnaplist := PruneSnapsWithQuotas(autoSnaps, storage.quotas);
      var deletable := NotIn(autoSnaps, newSnaplist);
      DeletableIds(all, storage.snapshots, service.id, storage.quotas);
      ListsMembers(all, storage.snapshots);
      r := ForgetSnapshots(deletable);
    }

    /** What happens to a snapshot just made: stamp the service, refill the cache. */
    method OnNewSnapshotCreated(serviceId: string, snapshot: Snapshot) returns (r: Result<(), Error>)
      requires Valid()
      modifies storage`snapshots, storage`lastBackup
      ensures Valid()
      ensures r.Ok? ==> InStep()
      ensures r.Err? ==> r.error == ProviderFailed && storage.snapshots == old(storage.snapshots)
      ensures storage.lastBackup == old(storage.lastBackup)[serviceId := snapshot]
      ensures provider.reliable ==> r.Ok?
    {
      storage.StoreLastTimestamp(serviceId, snapshot);
      r := ForceSnapshotCacheReload();
    }

    /** No call to the outside fails. */
    predicate Works() { provider.reliable && fs.reliable }

    /** What a backup stores of `files`, or stores part of. */
    ghost function New(service: Service, reason: Reason, newId: string, time: DateTime, files: Files): Stored {
      Stored(Snapshot(newId, service.id, time, reason), service.folders, files)
    }

    /** The first half of a backup: the service's own preparations, upload, stamp, reload. */
    method TakeSnapshot(service: Service, reason: Reason, newId: string, time: DateTime, callerTime: DateTime)
      returns (r: Result<Snapshot, Error>)
      requires Valid() && newId !in provider.repo
      modifies storage`snapshots, storage`lastBackup, provider, fs
      ensures Valid()
      ensures Hooked(service, old(fs.files), fs.files)
      ensures r.Ok? ==> service.dumps <= fs.files.Keys
      ensures r.Ok? ==>
        && InStep()
        && provider.repo
           == old(provider.repo)[newId := New(service, reason, newId, time, Within(fs.files, service.folders))]
      ensures r.Ok? ==>
        storage.lastBackup == old(storage.lastBackup)[service.id := Snapshot(newId, service.id, callerTime, reason)]
      ensures r.Ok? ==> r.value.id == newId
      ensures r.Err? ==> !r.error.DateSyncFailed?
      ensures r == Err(NotBackuppable) <==> !service.canBeBackedUp
      ensures Works() && service.canBeBackedUp && service.folders != [] ==> r.Ok?
      ensures r.Err? ==>
        || provider.repo == old(provider.repo)
        || exists files: Files :: provider.repo == old(provider.repo)[newId := New(service, reason, newId, time, files)]
    {
      if !service.canBeBackedUp {
        return Err(NotBackuppable);
      }
      var prepared := fs.PreBackup(service);
      if !prepared {
        return Err(HookFailed);
      }
      r := provider.StartBackup(fs, service.folders, service.id, reason, newId, time, callerTime);
      if r.Ok? {
        var reloaded := OnNewSnapshotCreated(service.id, r.value);
        if reloaded.Err? {
          assert provider.repo
              == old(provider.repo)[newId := New(service, reason, newId, time, Within(fs.files, service.folders))];
          return Err(reloaded.error);
        }
      } else if provider.repo != old(provider.repo) {
        ghost var files: Files :|
          provider.repo
          == old(provider.repo)[newId := Stored(Snapshot(newId, service.id, time, reason), service.folders, files)];
        assert provider.repo == old(provider.repo)[newId := New(service, reason, newId, time, files)];
      }
    }

    /** What a failed backup may have left in the repository: nothing, or a snapshot, complete or
        not, with the rotation at most partly done. */
    ghost predicate Attempted(before: Repository, service: Service, reason: Reason, newId: string, time: DateTime)
      reads this, provider, storage
    {
      || provider.repo == before
      || exists files: Files ::
           CutShort(before, New(service, reason, newId, time, files), provider.repo, storage.quotas)
    }

    /** A backup up to and including the rotation. */
    method TakeAndRotate(service: Service, reason: Reason, newId: string, time: DateTime, callerTime: DateTime)
      returns (r: Result<Snapshot, Error>, ghost order: seq<Snapshot>)
      requires Valid() && newId !in provider.repo
      modifies storage`snapshots, storage`lastBackup, provider, fs
      ensures Valid()
      ensures Hooked(service, old(fs.files), fs.files)
      ensures r.Ok? ==> service.dumps <= fs.files.Keys
      ensures r.Ok? ==> InStep() && r.value.id == newId
      ensures r.Ok? ==>
        storage.lastBackup == old(storage.lastBackup)[service.id := Snapshot(newId, service.id, callerTime, reason)]
      ensures r.Ok? ==>
        var made := New(service, reason, newId, time, Within(fs.files, service.folders));
        Rotated(old(provider.repo), made, order, provider.repo, storage.quotas)
      ensures r.Err? ==> !r.error.DateSyncFailed? && Attempted(old(provider.repo), service, reason, newId, time)
      ensures r == Err(NotBackuppable) <==> !service.canBeBackedUp
      ensures Works() && service.canBeBackedUp && service.folders != [] ==> r.Ok?
    {
      order := [];
      r := TakeSnapshot(service, reason, newId, time, callerTime);
      if r.Ok? && reason == AUTO {
        var pruned;
        pruned, order := PruneAutoSnaps(service);
        if pruned.Err? {
          ghost var made := New(service, reason, newId, time, Within(fs.files, service.folders));
          assert CutShort(old(provider.repo), made, provider.repo, storage.quotas);
          return Err(pruned.error), order;
        }
      }
    }

    /** Backs a service up. `dumped` is what the files were when they were uploaded: as on entry
        but for what the hooks own. On success the snapshot is in the repository under its new id
        with the contents the folders then had, the cache is in step, and an automatic backup has
        rotated the older automatic snapshots of this service. Nothing else is ever removed. */
    method BackUp(service: Service, reason: Reason, newId: string, time: DateTime, callerTime: DateTime)
      returns (r: Result<Snapshot, Error>, ghost order: seq<Snapshot>, ghost dumped: Files)
      requires Valid() && newId !in provider.repo
      modifies storage`snapshots, storage`lastBackup, provider, fs
      ensures Valid()
      ensures Hooked(service, old(fs.files), dumped) && Cleaned(service, dumped, fs.files)
      ensures forall p: Path :: p !in service.dumps && p.folder !in service.stash ==>
                At(fs.files, p) == At(dumped, p) == At(old(fs.files), p)
      ensures r == Err(NotBackuppable) <==> !service.canBeBackedUp
      ensures Works() && service.canBeBackedUp && service.folders != [] ==> r.Ok? || r == Err(DateSyncFailed)
      ensures r.Ok? ==> service.dumps <= dumped.Keys && service.dumps !! fs.files.Keys
      ensures r.Ok? ==> InStep() && r.value == Snapshot(newId, service.id, time, reason)
      ensures r.Ok? ==>
        storage.lastBackup == old(storage.lastBackup)[service.id := Snapshot(newId, service.id, callerTime, reason)]
      ensures r.Ok? || r.error.DateSyncFailed? ==>
        var made := New(service, reason, newId, time, Within(dumped, service.folders));
        && Rotated(old(provider.repo), made, order, provider.repo, storage.quotas)
        && (r.Ok? <==> reason != AUTO || RetentionPeriods.Spared(storage.quotas, order, made.snapshot))
      ensures r.Err? ==> Attempted(old(provider.repo), service, reason, newId, time)
      ensures reason == AUTO && !KeepsSomething(storage.quotas) ==> r.Err?
      ensures r == Err(DateSyncFailed) && KeepsSomething(storage.quotas) ==>
                exists id :: id in old(provider.repo) && IsAutoOf(old(provider.repo)[id].snapshot, service.id)
                             && Instant(old(provider.repo)[id].snapshot.createdAt) >= Instant(time)
      ensures provider.repo.Keys <= old(provider.repo.Keys) + {newId}
      ensures forall id :: id in old(provider.repo) ==>
                || (reason == AUTO && old(provider.repo)[id].snapshot.reason == AUTO
                    && old(provider.repo)[id].snapshot.serviceName == service.id)
                || (id in provider.repo && provider.repo[id] == old(provider.repo)[id])
    {
      r, order := TakeAndRotate(service, reason, newId, time, callerTime);
      dumped := fs.files;
      ghost var repo, made := provider.repo, New(service, reason, newId, time, Within(dumped, service.folders));
      if r.Ok? {
        RotatedIsCutShort(old(provider.repo), made, order, repo, storage.quotas);
        RotatedSpares(old(provider.repo), made, order, repo, storage.quotas);
        var cleaned := fs.CleanUp(service);
        var synced := storage.GetCachedSnapshotById(r.value.id);
        r := if !cleaned then Err(HookFailed) else if synced.None? then Err(DateSyncFailed) else Ok(synced.value);
      }
      if repo != old(provider.repo) {
        ghost var files: Files :|
          CutShort(old(provider.repo), New(service, reason, newId, time, files), repo, storage.quotas);
        CutShortKeeps(old(provider.repo), New(service, reason, newId, time, files), repo, storage.quotas);
      }
    }

    /** Restores a snapshot over the live folders, keeping a fail-safe copy of their contents as
        the preparations left them. The folders end up as the snapshot has them, or as the copy
        has them, unless the revert fails as well; the copy is in the repository either way. It
        has the contents on entry exactly if the preparations changed nothing the hooks own. */
    method InplaceRestore(service: Service, snapshot: Snapshot, newId: string, time: DateTime, callerTime: DateTime)
      returns (outcome: RestoreOutcome, ghost dumped: Files)
      requires Valid() && newId !in provider.repo
      modifies storage`snapshots, storage`lastBackup, provider, fs
      ensures Valid()
      ensures Hooked(service, old(fs.files), dumped)
      ensures outcome.Restored? ==>
        && snapshot.id in provider.repo
        && Within(fs.files, service.folders) == Within(provider.repo[snapshot.id].files, service.folders)
      ensures outcome.NoFailsafe? ==> Hooked(service, old(fs.files), fs.files)
      ensures !outcome.NoFailsafe? ==>
        && service.dumps <= dumped.Keys && InStep()
        && provider.repo == old(provider.repo)[newId := Failsafe(service, newId, time, dumped)]
      ensures outcome.Reverted? ==>
        && Within(fs.files, service.folders) == Within(dumped, service.folders)
        && (Within(fs.files, service.folders) == old(Within(fs.files, service.folders)) <==>
            SameOwned(service, old(fs.files), dumped))
      ensures forall p: Path :: p.folder !in service.folders ==>
                || p in service.dumps || p.folder in service.stash
                || (snapshot.id in provider.repo && p in provider.repo[snapshot.id].files)
                || At(fs.files, p) == At(old(fs.files), p)
      ensures Works() && service.canBeBackedUp && service.folders != [] && snapshot.id in old(provider.repo) ==>
                outcome.Restored?
    {
      var failsafe: Result<Snapshot, Error>;
      ghost var order: seq<Snapshot>;
      failsafe, order, dumped := BackUp(service, PRE_RESTORE, newId, time, callerTime);
      if failsafe.Err? {
        return NoFailsafe(failsafe.error), dumped;
      }
      SameWithinIfSameOwned(service, old(fs.files), dumped);
      var restored := provider.RestoreInPlace(fs, snapshot.id, service.folders);
      if restored.Ok? {
        return Restored, dumped;
      }
      var reverted := provider.RestoreInPlace(fs, failsafe.value.id, service.folders);
      outcome := if reverted.Ok? then Reverted(failsafe.value.id) else RevertFailed(failsafe.value.id);
    }

    ghost function Failsafe(service: Service, newId: string, time: DateTime, dumped: Files): Stored {
      New(service, PRE_RESTORE, newId, time, Within(dumped, service.folders))
    }

    /** The restore action: stop the service, restore by the chosen strategy, and resume the
        service, also after a failure inside. The check that the service is dead never fails. */
    method RestoreSnapshot(service: Service, unit: ServiceUnit, snapshot: Snapshot, restorable: bool, inPlace: bool,
                           newId: string, time: DateTime, callerTime: DateTime)
      returns (ok: bool, entered: bool, unitOk: bool, attempt: Attempt, ghost prepared: Files, ghost dumped: Files)
      requires Valid() && newId !in provider.repo
      modifies storage`snapshots, storage`lastBackup, provider, fs, unit
      ensures Valid()
      ensures ok ==> entered && unitOk
      ensures !entered ==> !ok && attempt == NoAttempt && fs.files == old(fs.files) && (unitOk ==> unchanged(unit))
      ensures entered ==> restorable
      ensures entered && unitOk ==>
        if unit.alwaysActive || old(unit.status) in {INACTIVE, FAILED} then unit.status == old(unit.status)
        else if old(unit.status) in {ACTIVE, ACTIVATING} then unit.status == ACTIVE
        else unit.status in {INACTIVE, FAILED}
      ensures unit.obeys ==> unitOk && (entered <==> restorable)
      ensures restorable && unit.obeys && Works() && CanRestore(service, snapshot, inPlace, old(provider.repo)) ==> ok
      ensures RestoreEnds(service, snapshot, newId, time, old(provider.repo), old(fs.files), ok, attempt, dumped)
      ensures attempt.InPlace? ==> inPlace
      ensures attempt.Verified? ==> !inPlace
      ensures attempt != NoAttempt ==> Cleaned(service, old(fs.files), prepared) && service.dumps !! prepared.Keys
      ensures attempt != NoAttempt ==> Hooked(service, prepared, dumped)
      ensures ok ==>
        && snapshot.id in provider.repo
        && forall p: Path :: p.folder in service.folders ==>
             if p in service.dumps then p !in fs.files && p in provider.repo[snapshot.id].files
             else (p.folder in service.stash && p !in fs.files)
                  || At(fs.files, p) == At(provider.repo[snapshot.id].files, p)
    {
      ok, entered, unitOk, attempt, prepared, dumped := false, false, true, NoAttempt, fs.files, fs.files;
      if !restorable {
        return;
      }
      var block := new StoppedService(unit);
      entered := block.Enter();
      if !entered {
        unitOk := false;
        return;
      }
      assert unit.alwaysActive || unit.status in {INACTIVE, FAILED};
      ok, attempt, prepared, dumped := RestoreStopped(service, snapshot, inPlace, newId, time, callerTime);
      unitOk := block.Exit();
      ok := ok && unitOk;
    }

    /** There is something to restore, and the snapshot holds it. */
    ghost predicate CanRestore(service: Service, snapshot: Snapshot, inPlace: bool, repo: Repository) {
      && service.folders != [] && snapshot.id in repo
      && (if inPlace then service.canBeBackedUp
          else forall folder :: folder in service.folders ==> folder in repo[snapshot.id].folders)
      && forall p :: p in service.dumps ==> p.folder in service.folders && p in repo[snapshot.id].files
    }

    /** Where a restore ends that began with `repo` and `entry`. */
    ghost predicate RestoreEnds(service: Service, snapshot: Snapshot, newId: string, time: DateTime, repo: Repository,
                                entry: Files, ok: bool, attempt: Attempt, dumped: Files)
      reads this, provider, fs
    {
      && Hooked(service, entry, dumped)
      && (ok ==> attempt == InPlace(Restored) || attempt == Verified(true))
      && (ok ==> snapshot.id in provider.repo
                 && RestoredFully(service, provider.repo[snapshot.id].files, fs.files))
      && (attempt == InPlace(Restored) || attempt == Verified(true) ==>
            && snapshot.id in provider.repo
            && RestoredFrom(service, provider.repo[snapshot.id].files, fs.files))
      && (attempt == NoAttempt || (attempt.InPlace? && attempt.outcome.NoFailsafe?) ==>
            Hooked(service, entry, fs.files))
      && (attempt.InPlace? && !attempt.outcome.NoFailsafe? ==>
            && service.dumps <= dumped.Keys
            && provider.repo == repo[newId := Failsafe(service, newId, time, dumped)])
      && (attempt.InPlace? && attempt.outcome.Reverted? ==>
            && Within(fs.files, service.folders) == Within(dumped, service.folders)
            && (Within(fs.files, service.folders) == Within(entry, service.folders) <==>
                SameOwned(service, entry, dumped)))
      && (forall p: Path :: p.folder !in service.folders ==>
            || p in service.dumps || p.folder in service.stash
            || (snapshot.id in provider.repo && p in provider.repo[snapshot.id].files)
            || At(fs.files, p) == At(entry, p))
    }

    /** The block in which the service is stopped. */
    method RestoreStopped(service: Service, snapshot: Snapshot, inPlace: bool,
                          newId: string, time: DateTime, callerTime: DateTime)
      returns (ok: bool, attempt: Attempt, ghost prepared: Files, ghost dumped: Files)
      requires Valid() && newId !in provider.repo
      modifies storage`snapshots, storage`lastBackup, provider, fs
      ensures Valid()
      ensures RestoreEnds(service, snapshot, newId, time, old(provider.repo), old(fs.files), ok, attempt, dumped)
      ensures attempt.InPlace? ==> inPlace
      ensures attempt.Verified? ==> !inPlace
      ensures attempt != NoAttempt ==> Cleaned(service, old(fs.files), prepared) && service.dumps !! prepared.Keys
      ensures attempt != NoAttempt ==> Hooked(service, prepared, dumped)
      ensures Works() && CanRestore(service, snapshot, inPlace, old(provider.repo)) ==> ok
    {
      ok, attempt, dumped := false, NoAttempt, fs.files;
      var cleaned := fs.CleanUp(service);
      prepared, dumped := fs.files, fs.files;
      if !cleaned {
        return;
      }
      if inPlace {
        var outcome;
        outcome, dumped := InplaceRestore(service, snapshot, newId, time, callerTime);
        SameWithinIfSameOwned(service, old(fs.files), dumped);
        ok, attempt := outcome.Restored?, InPlace(outcome);
      } else {
        var restored, _ := provider.RestoreVerified(fs, snapshot.id, service.folders);
        ok, attempt := restored.Ok?, Verified(restored.Ok?);
        if ok {
          SameWithin(fs.files, provider.repo[snapshot.id].files, service.folders);
        }
      }
      if ok {
        ghost var restored := fs.files;
        FilesWithin(restored, provider.repo[snapshot.id].files, service.folders);
        assert forall p :: p in restored <==> At(restored, p).Some?;
        ok := fs.PostRestore(service);
        CleanedIsRestoredFrom(service, provider.repo[snapshot.id].files, restored, fs.files);
      }
    }
  }

  // ----- What a restore leaves in the folders -----

  /** Two states of the files agree on what the hooks own in the service's folders. */
  ghost predicate SameOwned(service: Service, a: Files, b: Files) {
    forall p: Path :: p.folder in service.folders && Owned(service, p) ==> At(a, p) == At(b, p)
  }

  lemma FilesWithin(a: Files, b: Files, folders: seq<string>)
    requires Within(a, folders) == Within(b, folders)
    ensures forall p: Path :: p.folder in folders ==> At(a, p) == At(b, p)
  {
    forall p: Path | p.folder in folders ensures At(a, p) == At(b, p) {
      assert At(Within(a, folders), p) == At(a, p) && At(Within(b, folders), p) == At(b, p);
    }
  }

  lemma SameWithinIfSameOwned(service: Service, entry: Files, dumped: Files)
    requires Hooked(service, entry, dumped)
    ensures Within(dumped, service.folders) == Within(entry, service.folders) <==> SameOwned(service, entry, dumped)
  {
    if Within(dumped, service.folders) == Within(entry, service.folders) {
      FilesWithin(dumped, entry, service.folders);
    }
    if SameOwned(service, entry, dumped) {
      SameWithin(dumped, entry, service.folders);
    }
  }

  /** The folders are as the snapshot has them, but that what the hooks own may have been deleted. */
  ghost predicate RestoredFrom(service: Service, source: Files, after: Files) {
    forall p: Path :: p.folder in service.folders ==>
      At(after, p) == At(source, p) || (Owned(service, p) && At(after, p) == None)
  }

  /** The dumps were read back, out of the snapshot if its folders hold them, and are deleted. */
  ghost predicate RestoredFully(service: Service, source: Files, after: Files) {
    && RestoredFrom(service, source, after)
    && service.dumps !! after.Keys
    && forall p :: p in service.dumps && p.folder in service.folders ==> p in source
  }

  lemma CleanedIsRestoredFrom(service: Service, source: Files, restored: Files, after: Files)
    requires Within(restored, service.folders) == Within(source, service.folders)
    requires Cleaned(service, restored, after)
    ensures RestoredFrom(service, source, after)
  {
    FilesWithin(restored, source, service.folders);
  }

  /** After a restore that succeeded, hooks included, the folders are exactly the snapshot's if and
      only if the service dumps no database and none of its stash in the folders was emptied. */
  lemma ExactlyRestoredUnlessDumps(service: Service, source: Files, after: Files)
    requires RestoredFully(service, source, after)
    requires forall p :: p in service.dumps ==> p.folder in service.folders
    ensures Within(after, service.folders) == Within(source, service.folders) <==>
              && service.dumps == {}
              && forall p: Path :: p.folder in service.folders && p.folder in service.stash ==>
                   At(after, p) == At(source, p)
  {
    forall p | p in service.dumps ensures At(after, p) != At(source, p) {
      assert p.folder in service.folders;
    }
    if Within(after, service.folders) == Within(source, service.folders) {
      FilesWithin(after, source, service.folders);
    }
    if service.dumps == {} && forall p: Path :: p.folder in service.folders && p.folder in service.stash ==>
         At(after, p) == At(source, p)
    {
      SameWithin(after, source, service.folders);
    }
  }

  /** A service with one database, whose dump is backed up with its data. */
  const DATABASE_SERVICE: Service :=
    Service("gitea", ["/var/lib/gitea", "/var/lib/postgresql-dumps/gitea"], true,
            {Path("/var/lib/postgresql-dumps/gitea", "gitea.dump")}, {})

  /** When it is restored in place, the preparations find no dump and leave one, and a revert
      leaves it as well: the folders are not what they were. */
  lemma RevertLeavesDump(entry: Files, dumped: Files)
    requires Hooked(DATABASE_SERVICE, entry, dumped)
    requires DATABASE_SERVICE.dumps !! entry.Keys && DATABASE_SERVICE.dumps <= dumped.Keys
    ensures Within(dumped, DATABASE_SERVICE.folders) != Within(entry, DATABASE_SERVICE.folders)
  {
    var dump := Path("/var/lib/postgresql-dumps/gitea", "gitea.dump");
    assert dump in DATABASE_SERVICE.dumps && dump.folder == DATABASE_SERVICE.folders[1];
    SameWithinIfSameOwned(DATABASE_SERVICE, entry, dumped);
    assert At(entry, dump) != At(dumped, dump);
  }

  lemma SameWithin(a: Files, b: Files, folders: seq<string>)
    requires forall p: Path :: p.folder in folders ==> At(a, p) == At(b, p)
    ensures Within(a, folders) == Within(b, folders)
  {
    forall p: Path ensures At(Within(a, folders), p) == At(Within(b, folders), p) {
      assert p.folder in folders ==> At(a, p) == At(b, p);
    }
    SameAtEqual(Within(a, folders), Within(b, folders));
  }

  lemma SameAtEqual(a: Files, b: Files)
    requires forall p: Path :: At(a, p) == At(b, p)
    ensures a == b
  {
    forall p: Path
      ensures p in a <==> p in b
      ensures p in a ==> a[p] == b[p]
    {
      assert At(a, p) == At(b, p);
    }
  }

  /** A snapshot outlives the rotation it triggers exactly if it is spared where it comes among
      its service's automatic ones. One strictly newer than the others is, unless every quota is
      closed; then everything goes. */
  lemma NewestKept(order: seq<Snapshot>, listing: map<string, Snapshot>, newId: string, serviceId: string, q: Quotas)
    requires Orders(order, listing, serviceId) && KeyedById(listing)
    requires newId in listing && IsAutoOf(listing[newId], serviceId)
    ensures listing[newId] in Prune(order, q) <==> RetentionPeriods.Spared(q, order, listing[newId])
    ensures !KeepsSomething(q) ==> Prune(order, q) == []
    ensures KeepsSomething(q) && listing[newId] !in Prune(order, q) ==>
              exists id :: id in listing && id != newId && IsAutoOf(listing[id], serviceId)
                           && Instant(listing[id].createdAt) >= Instant(listing[newId].createdAt)
  {
    var x := listing[newId];
    assert x in AutoSnaps(listing, serviceId);
    RetentionPeriods.KeptExactlyIfSpared(order, AutoSnaps(listing, serviceId), q, x);
    assert x in multiset(order);
    NewestSurvives(order, q);
    if KeepsSomething(q) && x !in Prune(order, q) {
      NewerThere(order, x);
      var y :| y in AutoSnaps(listing, serviceId) && y != x && NotNewer(x, y);
    }
  }

  lemma NewerThere(order: seq<Snapshot>, x: Snapshot)
    requires x in order && NewestFirst(order) != [] && x != NewestFirst(order)[0]
    ensures exists y :: y in multiset(order) && y != x && NotNewer(x, y)
  {
    NewestFirstSorts(order);
    var s := NewestFirst(order);
    assert x in multiset(s);
    var i :| 0 <= i < |s| && s[i] == x;
    assert NotNewer(s[i], s[0]);
    assert s[0] in multiset(s);
  }

  lemma DeletableIds(all: seq<Snapshot>, listing: map<string, Snapshot>, serviceId: string, q: Quotas)
    requires Lists(all, listing) && KeyedById(listing)
    ensures var order := AutoOnly(all, serviceId);
            (set s | s in NotIn(order, Prune(order, q)) :: s.id) == Dropped(listing, serviceId, order, q)
  {
    var order := AutoOnly(all, serviceId);
    ListsMembers(all, listing);
    var deletable := set s | s in NotIn(order, Prune(order, q)) :: s.id;
    forall id ensures id in deletable <==> id in Dropped(listing, serviceId, order, q) {
      if id in Dropped(listing, serviceId, order, q) {
        assert listing[id] in listing.Values;
        assert listing[id] in NotIn(order, Prune(order, q));
      }
    }
  }
}
