/** The two tag-validated service caches as the code runs them, for one service: each `await` is
    a point where other tasks may commit new versions or refill the cache. */
module SuggestedServices {
  import opened Wrappers
  import opened TaggedCache

  /** Another reader on its way: the tag it has read, and the data once it has read that too. */
  datatype Held = Held(tag: Option<string>, data: Option<string>)

  datatype FileError = FileNotFound

  class ServiceCache {
    /** What Redis, or the file system, holds now. A definition file that is missing has no tag. */
    var head: Option<string>
    var data: string
    /** The module-level cache: tag and service read from it. */
    var cached: Option<(string, string)>
    var others: seq<Held>

    /** Every version so far, and which of them the halves of the cached pair, and of what the
        other readers hold, come from. */
    ghost var history: seq<Version>
    ghost var tagOf: nat
    ghost var dataOf: nat
    ghost var heldOf: seq<(nat, nat)>

    /** The data was read after the tag. */
    ghost predicate Coherent(held: Held, from: (nat, nat))
      reads this`history
    {
      && from.0 < |history| && history[from.0].tag == held.tag
      && (held.data.Some? ==> from.0 <= from.1 < |history| && history[from.1].data == held.data.value)
    }

    ghost predicate Valid()
      reads this
    {
      && history != [] && history[|history| - 1] == Version(head, data)
      && (cached.Some? ==> Coherent(Held(Some(cached.value.0), Some(cached.value.1)), (tagOf, dataOf)))
      && |heldOf| == |others| && forall n :: 0 <= n < |others| ==> Coherent(others[n], heldOf[n])
    }

    constructor (data: string)
      ensures Valid() && history == [Version(None, data)] && cached == None
    {
      head, this.data, cached, others := None, data, None, [];
      history, heldOf := [Version(None, data)], [];
    }

    method Publish(newData: string, tag: Option<string>)
      requires Valid()
      modifies this
      ensures Valid() && history == old(history) + [Version(tag, newData)]
      ensures cached == old(cached) && others == old(others)
    {
      head, data := tag, newData;
      history := history + [Version(tag, newData)];
    }

    /** The transaction that replaces data and tag together. */
    method Commit(newData: string, revision: string)
      requires Valid()
      modifies this
      ensures Valid() && history == old(history) + [Version(Some(revision), newData)]
      ensures cached == old(cached) && others == old(others)
    {
      Publish(newData, Some(revision));
    }

    method OtherBegins()
      requires Valid()
      modifies this
      ensures Valid() && history == old(history)
    {
      others := others + [Held(head, None)];
      heldOf := heldOf + [(|history| - 1, 0)];
    }

    method OtherReads(n: nat)
      requires Valid() && n < |others|
      modifies this
      ensures Valid() && history == old(history)
    {
      others := others[n := others[n].(data := Some(data))];
      heldOf := heldOf[n := (heldOf[n].0, |history| - 1)];
    }

    method OtherStores(n: nat)
      requires Valid() && n < |others| && others[n].data.Some?
      modifies this
      ensures Valid() && history == old(history)
    {
      Store(others[n].tag, others[n].data.value, heldOf[n].0, heldOf[n].1);
    }

    /** What other tasks may do during one `await`: any number of commits, removals of the file,
        and steps of readers. */
    method Await()
      requires Valid()
      modifies this
      ensures Valid() && old(history) <= history
    {
      var steps: nat :| true;
      for k := 0 to steps
        invariant Valid() && old(history) <= history
      {
        var step: int, n: nat := *, *;
        if step == 0 {
          var newData: string, revision: string := *, *;
          Commit(newData, revision);
        } else if step == 1 {
          Publish(data, None);
        } else if step == 2 {
          OtherBegins();
        } else if n < |others| && others[n].data.None? {
          OtherReads(n);
        } else if n < |others| {
          OtherStores(n);
        }
      }
    }

    method Store(revision: Option<string>, service: string, ghost tagVersion: nat, ghost dataVersion: nat)
      requires Valid() && Coherent(Held(revision, Some(service)), (tagVersion, dataVersion))
      modifies this`cached, this`tagOf, this`dataOf
      ensures Valid()
      ensures revision.Some? ==> cached == Some((revision.value, service))
    {
      if revision.Some? {
        cached := Some((revision.value, service));
        tagOf, dataOf := tagVersion, dataVersion;
      }
    }

    /** The suggested services' reader: the tag comes from Redis, and other tasks run before it is
        compared, before the data is asked for and before the answer arrives. The answer is the
        data of some version, and if no revision ever came back, of one that was current during
        the call. What was not in the cache is there afterwards, under the tag that was read. */
    method Get() returns (service: string, hit: bool, ghost version: nat, ghost tag: Option<string>)
      requires Valid()
      modifies this
      ensures Valid() && old(history) <= history
      ensures version < |history| && service == history[version].data
      ensures TagsNeverRecur(history) ==> |old(history)| - 1 <= version
      ensures exists i :: |old(history)| - 1 <= i < |history| && history[i].tag == tag
      ensures tag.Some? ==> cached == Some((tag.value, service))
    {
      Await();
      var revision := head;
      ghost var tagVersion := |history| - 1;
      hit, tag := false, revision;
      Await();
      if cached.Some? && revision.Some? && cached.value.0 == revision.value {
        assert TagsNeverRecur(history) ==> tagOf == tagVersion;
        return cached.value.1, true, dataOf, tag;
      }
      Await();
      service, version := data, |history| - 1;
      Await();
      Store(revision, service, tagVersion, version);
    }

    /** The installed services' reader: the stat key is read and compared without a pause, so a
        hit is the data current when it was read, if no key ever came back. It fails if the
        definition is missing, at the call or when it is opened. */
    method GetTemplated() returns (r: Result<string, FileError>, hit: bool, ghost version: nat)
      requires Valid()
      modifies this
      ensures Valid() && old(history) <= history && version < |history|
      ensures r.Ok? ==> r.value == history[version].data
      ensures TagsNeverRecur(history) || r.Err? ==> |old(history)| - 1 <= version
      ensures r.Err? ==> history[version].tag == None && !hit
      ensures old(head) == None ==> r.Err? && unchanged(this)
      ensures hit <==> old(head).Some? && old(cached).Some? && old(cached).value.0 == old(head).value
      ensures hit ==> unchanged(this) && r == Ok(old(cached).value.1)
      ensures !hit && r.Ok? ==> cached == Some((old(head).value, r.value))
      ensures hit && TagsNeverRecur(history) ==> version == |history| - 1 && r == Ok(data)
    {
      var statKey := head;
      hit, version := false, |history| - 1;
      ghost var tagVersion := version;
      if statKey.None? {
        return Err(FileNotFound), hit, version;
      }
      if cached.Some? && cached.value.0 == statKey.value {
        assert TagsNeverRecur(history) ==> tagOf == tagVersion;
        return Ok(cached.value.1), true, dataOf;
      }
      Await();
      version := |history| - 1;
      if head.None? {
        return Err(FileNotFound), hit, version;
      }
      var serviceData := data;
      Await();
      Store(statKey, serviceData, tagVersion, version);
      return Ok(serviceData), hit, version;
    }

    /** Brings one module up to date with the upstream listing, fetching it only if its revision
        is not the stored one. The lock keeps other syncs out, so nobody else commits. `fetched`
        is absent if the fetch fails; then the module stays at its revision. */
    method Sync(lastRevision: string, fetched: Option<string>) returns (ok: bool)
      requires Valid()
      modifies this
      ensures Valid()
      ensures ok <==> head == Some(lastRevision)
      ensures ok <==> old(head) == Some(lastRevision) || fetched.Some?
      ensures !ok || old(head) == Some(lastRevision) ==> unchanged(this)
      ensures ok && old(head) != Some(lastRevision) ==>
                history == old(history) + [Version(Some(lastRevision), fetched.value)]
    {
      if head.None? || head.value != lastRevision {
        if fetched.None? {
          return false;
        }
        Commit(fetched.value, lastRevision);
      }
      return true;
    }
  }
}
