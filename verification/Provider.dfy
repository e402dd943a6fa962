/** The outside world of the backup module: the remote repository and the live folders. Any call
    may fail, and a failing call may leave part of its work behind. */
module BackupProvider {
  import opened Wrappers
  import opened Calendar
  import opened Retention

  datatype Path = Path(folder: string, name: string)

  type Files = map<Path, string>

  /** A snapshot with the folders it was taken of and the files in them. */
  datatype Stored = Stored(snapshot: Snapshot, folders: seq<string>, files: Files)

  type Repository = map<string, Stored>

  /** A service's hooks write `dumps`, its databases dumped to files, before a backup and delete
      them afterwards. Folders in `stash` they rebuild or empty as they like: the API service keeps
      a copy of its settings in one, and puts the settings back in others. */
  datatype Service = Service(
    id: string, folders: seq<string>, canBeBackedUp: bool, dumps: set<Path>, stash: set<string>)

  datatype Error = NotBackuppable | ProviderFailed | HookFailed | DateSyncFailed

  /** The part of a file tree that lies in `folders`. */
  function Within(files: Files, folders: seq<string>): Files {
    map p | p in files && p.folder in folders :: files[p]
  }

  ghost predicate WellFormed(repo: Repository) {
    forall id :: id in repo ==> repo[id].snapshot.id == id
  }

  /** The repository's listing, by id: what a cache in step with it holds. */
  function Listing(repo: Repository): map<string, Snapshot> {
    map id | id in repo :: repo[id].snapshot
  }

  /** Some of the named snapshots may be gone; nothing else has changed. */
  ghost predicate LosesAtMost(before: Repository, ids: set<string>, after: Repository) {
    && (forall id :: id in after ==> id in before && after[id] == before[id])
    && (forall id :: id in before && id !in ids ==> id in after)
  }

  /** What is at a path. */
  function At(files: Files, p: Path): Option<string> {
    if p in files then Some(files[p]) else None
  }

  // ----- What hooks may do -----

  predicate Owned(service: Service, p: Path) { p in service.dumps || p.folder in service.stash }

  /** Nothing but what the service's hooks own has changed. */
  ghost predicate Hooked(service: Service, before: Files, after: Files) {
    forall p: Path :: !Owned(service, p) ==> At(after, p) == At(before, p)
  }

  /** Of the service's folders, nothing but that has changed, and it only by being deleted. */
  ghost predicate Cleaned(service: Service, before: Files, after: Files) {
    && Hooked(service, before, after)
    && forall p: Path :: p.folder in service.folders ==> At(after, p) == None || At(after, p) == At(before, p)
  }

  class FileSystem {
    var files: Files
    /** No call fails that is given what it needs. */
    const reliable: bool

    /** `pre_backup`: dumps the databases, rebuilds the stash. */
    method PreBackup(service: Service) returns (ok: bool)
      modifies this
      ensures forall p: Path :: p !in service.dumps && p.folder !in service.stash ==>
                At(files, p) == At(old(files), p)
      ensures Hooked(service, old(files), files)
      ensures ok ==> service.dumps <= files.Keys
      ensures reliable ==> ok
    {
      var kept := map p | p in files && !Owned(service, p) :: files[p];
      var made: Files := *;
      if reliable {
        made := made + map p | p in service.dumps - made.Keys :: "";
      }
      files := kept + map p | p in made && Owned(service, p) :: made[p];
      ok := *;
      ok := (ok || reliable) && service.dumps <= files.Keys;
    }

    /** `post_backup` and `pre_restore`: delete the dumps, and perhaps some of the stash. */
    method CleanUp(service: Service) returns (ok: bool)
      modifies this
      ensures forall p: Path :: p !in service.dumps && p.folder !in service.stash ==>
                At(files, p) == At(old(files), p)
      ensures Cleaned(service, old(files), files)
      ensures ok ==> service.dumps !! files.Keys
      ensures reliable ==> ok
    {
      var owned := set p | p in files && Owned(service, p);
      var spared: set<Path> :| spared <= owned;
      if reliable {
        spared := spared - service.dumps;
      }
      files := files - (owned - spared);
      ok := *;
      ok := (ok || reliable) && service.dumps !! files.Keys;
    }

    /** `post_restore`: reads the dumps back, of which none may be missing, or puts the settings
        back; then cleans up. */
    method PostRestore(service: Service) returns (ok: bool)
      modifies this
      ensures forall p: Path :: p !in service.dumps && p.folder !in service.stash ==>
                At(files, p) == At(old(files), p)
      ensures Cleaned(service, old(files), files)
      ensures ok ==> service.dumps <= old(files).Keys && service.dumps !! files.Keys
      ensures reliable && service.dumps <= old(files).Keys ==> ok
    {
      if !(service.dumps <= files.Keys) {
        return false;
      }
      var kept := map p | p in files && !(p.folder in service.stash && p.folder !in service.folders) :: files[p];
      var settings: Files := *;
      files := kept + map p | p in settings && p.folder in service.stash && p.folder !in service.folders :: settings[p];
      ok := CleanUp(service);
    }

    /** Makes a folder equal to `source`, or breaks off with some paths of it done, or damaged. */
    method SyncFolder(source: Files, folder: string) returns (ok: bool)
      modifies this
      ensures forall p: Path :: p.folder != folder ==> At(files, p) == At(old(files), p)
      ensures ok ==> forall p: Path :: p.folder == folder ==> At(files, p) == At(source, p)
      ensures reliable ==> ok
    {
      var kept := map p | p in files && p.folder != folder :: files[p];
      ok := *;
      ok := ok || reliable;
      if ok {
        files := kept + map p | p in source && p.folder == folder :: source[p];
      } else {
        var rest: Files := *;
        files := kept + map p | p in rest && p.folder == folder :: rest[p];
      }
    }

    /** Empties a folder, or gives up half way. */
    method RmAllFolderContents(folder: string) returns (ok: bool)
      modifies this
      ensures files.Keys <= old(files.Keys)
      ensures forall p :: p in files ==> files[p] == old(files)[p]
      ensures forall p :: p in old(files) && p.folder != folder ==> p in files
      ensures ok ==> forall p :: p in files ==> p.folder != folder
      ensures reliable ==> ok
    {
      var doomed := set p | p in files && p.folder == folder;
      ok := *;
      ok := ok || reliable;
      if !ok {
        var some: set<Path> :| some <= doomed;
        doomed := some;
      }
      files := files - doomed;
    }
  }

  class Provider {
    var repo: Repository
    /** No call fails that is given what it needs. */
    const reliable: bool

    method GetSnapshots() returns (r: Result<seq<Snapshot>, Error>)
      requires WellFormed(repo)
      ensures r.Err? ==> r.error == ProviderFailed
      ensures r.Ok? ==> forall x :: x in r.value ==> x.id in repo && repo[x.id].snapshot == x
      ensures r.Ok? ==> forall id :: id in repo ==> repo[id].snapshot in r.value
      ensures reliable ==> r.Ok?
    {
      var fails: bool := *;
      if fails && !reliable {
        return Err(ProviderFailed);
      }
      var list: seq<Snapshot> := [];
      var keys := repo.Keys;
      while keys != {}
        invariant keys <= repo.Keys
        invariant forall x :: x in list ==> x.id in repo && repo[x.id].snapshot == x
        invariant forall id :: id in repo && id !in keys ==> repo[id].snapshot in list
        decreases keys
      {
        var key :| key in keys;
        list := list + [repo[key].snapshot];
        keys := keys - {key};
      }
      return Ok(list);
    }

    /** Removes exactly the named snapshots, all of which must exist; a failing call may have
        removed some of them. */
    method ForgetSnapshots(ids: seq<string>) returns (r: Result<(), Error>)
      requires WellFormed(repo)
      modifies this
      ensures WellFormed(repo)
      ensures r.Err? ==> r.error == ProviderFailed
      ensures r.Ok? ==> (forall id :: id in ids ==> id in old(repo)) && repo == old(repo) - (set id | id in ids)
      ensures LosesAtMost(old(repo), (set id | id in ids), repo)
      ensures reliable && (forall id :: id in ids ==> id in old(repo)) ==> r.Ok?
    {
      var fails: bool := *;
      if (fails && !reliable) || exists id :: id in ids && id !in repo {
        var gone: set<string> :| gone <= set id | id in ids;
        repo := repo - gone;
        return Err(ProviderFailed);
      }
      repo := repo - (set id | id in ids);
      return Ok(());
    }

    /** Stores the current contents of `folders` under a new id. The caller is told the id and a
        date of its own clock; the repository keeps the date `time`. A failing call may leave an
        incomplete snapshot under the new id. */
    method StartBackup(fs: FileSystem, folders: seq<string>, serviceName: string, reason: Reason,
                       newId: string, time: DateTime, callerTime: DateTime)
      returns (r: Result<Snapshot, Error>)
      requires newId !in repo && WellFormed(repo)
      modifies this
      ensures WellFormed(repo)
      ensures r.Err? ==> r.error == ProviderFailed
      ensures r.Ok? ==> folders != [] && r.value == Snapshot(newId, serviceName, callerTime, reason)
      ensures reliable && folders != [] ==> r.Ok?
      ensures var snapshot := Snapshot(newId, serviceName, time, reason);
              && (r.Ok? ==> repo == old(repo)[newId := Stored(snapshot, folders, Within(fs.files, folders))])
              && (r.Err? ==> repo == old(repo)
                             || exists files: Files :: repo == old(repo)[newId := Stored(snapshot, folders, files)])
    {
      if folders == [] {
        return Err(ProviderFailed);
      }
      var snapshot := Snapshot(newId, serviceName, time, reason);
      var fails: bool := *;
      if fails && !reliable {
        var incomplete: bool := *;
        if incomplete {
          var some: Files := *;
          repo := repo[newId := Stored(snapshot, folders, some)];
        }
        return Err(ProviderFailed);
      }
      repo := repo[newId := Stored(snapshot, folders, Within(fs.files, folders))];
      return Ok(Snapshot(newId, serviceName, callerTime, reason));
    }

    /** Writes a snapshot's files over the live ones, or breaks off with any of them damaged. */
    method RawRestore(fs: FileSystem, id: string) returns (ok: bool)
      modifies fs
      ensures ok ==> id in repo && fs.files == old(fs.files) + repo[id].files
      ensures reliable && id in repo ==> ok
      ensures forall p :: p in fs.files && !(id in repo && p in repo[id].files) ==>
                p in old(fs.files) && fs.files[p] == old(fs.files)[p]
      ensures forall p :: p in old(fs.files) ==> p in fs.files
    {
      if id !in repo {
        return false;
      }
      ok := *;
      ok := ok || reliable;
      if ok {
        fs.files := fs.files + repo[id].files;
      } else {
        var written: Files :| written.Keys <= repo[id].files.Keys;
        fs.files := fs.files + written;
      }
    }

    /** Restore with `verify=True`: download to a scratch folder, then make the service's folders
        equal to it one by one. A folder the snapshot lacks, or a failing copy, stops it there:
        the folders before are restored, those after untouched, and only one is in between. */
    method RestoreVerified(fs: FileSystem, id: string, folders: seq<string>)
      returns (r: Result<(), Error>, ghost reached: nat)
      modifies fs
      ensures r.Ok? ==> id in repo && forall p: Path :: p.folder in folders ==> At(fs.files, p) == At(repo[id].files, p)
      ensures forall p: Path :: p.folder !in folders ==> At(fs.files, p) == At(old(fs.files), p)
      ensures r.Err? ==> reached <= |folders|
      ensures r.Err? && reached < |folders| ==>
        id in repo && forall p: Path :: p.folder != folders[reached] ==>
          At(fs.files, p) == if p.folder in folders[..reached] then At(repo[id].files, p) else At(old(fs.files), p)
      ensures r.Err? && (reached == |folders| || id !in repo) ==> fs.files == old(fs.files)
      ensures r.Ok? ==> folders != [] && forall folder :: folder in folders ==> folder in repo[id].folders
      ensures reliable && fs.reliable && id in repo && folders != [] ==>
                (r.Ok? <==> forall folder :: folder in folders ==> folder in repo[id].folders)
    {
      reached := |folders|;
      if folders == [] || id !in repo {
        return Err(ProviderFailed), reached;
      }
      var downloaded: bool := *;
      if !downloaded && !reliable {
        return Err(ProviderFailed), reached;
      }
      var stored := repo[id];
      for i := 0 to |folders|
        invariant forall p: Path ::
                    At(fs.files, p) == if p.folder in folders[..i] then At(stored.files, p) else At(old(fs.files), p)
        invariant forall k :: 0 <= k < i ==> folders[k] in stored.folders
      {
        if folders[i] !in stored.folders {
          return Err(ProviderFailed), i;
        }
        var ok := fs.SyncFolder(stored.files, folders[i]);
        assert folders[..i + 1] == folders[..i] + [folders[i]];
        if !ok {
          return Err(ProviderFailed), i;
        }
      }
      assert folders[..|folders|] == folders;
      return Ok(()), reached;
    }

    /** Restore with `verify=False`: empty every folder of the service, then write the snapshot. */
    method RestoreInPlace(fs: FileSystem, id: string, folders: seq<string>) returns (r: Result<(), Error>)
      modifies fs
      ensures r.Ok? ==> id in repo && Within(fs.files, folders) == Within(repo[id].files, folders)
      ensures reliable && fs.reliable && id in repo && folders != [] ==> r.Ok?
      ensures forall p: Path :: p.folder !in folders && !(id in repo && p in repo[id].files) ==>
                (p in fs.files <==> p in old(fs.files)) && (p in fs.files ==> fs.files[p] == old(fs.files)[p])
    {
      if folders == [] {
        return Err(ProviderFailed);
      }
      for i := 0 to |folders|
        invariant forall p :: p in fs.files ==> p.folder !in folders[..i]
        invariant forall p :: p in fs.files ==> p in old(fs.files) && fs.files[p] == old(fs.files)[p]
        invariant forall p :: p in old(fs.files) && p.folder !in folders ==> p in fs.files
      {
        var ok := fs.RmAllFolderContents(folders[i]);
        if !ok {
          return Err(ProviderFailed);
        }
      }
      assert folders[..|folders|] == folders;
      var ok := RawRestore(fs, id);
      if !ok {
        return Err(ProviderFailed);
      }
      return Ok(());
    }
  }
}
