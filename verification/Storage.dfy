/** The Redis side of the backup module: snapshot cache, last-backup stamps and quotas. */
module BackupStorage {
  import opened Wrappers
  import opened Calendar
  import opened Retention

  function StandardizeQuota(i: int): int { if i <= -1 then -1 else i }

  ghost predicate KeyedById(cache: map<string, Snapshot>) {
    forall id :: id in cache ==> cache[id].id == id
  }

  /** `list` names each value of `cache` once, in some order. */
  ghost predicate Lists(list: seq<Snapshot>, cache: map<string, Snapshot>) {
    multiset(list) == multiset(cache.Values)
  }

  lemma ListsMembers(list: seq<Snapshot>, cache: map<string, Snapshot>)
    requires Lists(list, cache)
    ensures forall x :: x in list <==> x in cache.Values
  {
    forall x ensures x in list <==> x in cache.Values {
      assert x in multiset(list) <==> x in multiset(cache.Values);
    }
  }

  /** `Lists`, given a list without repetitions over the same snapshots. */
  lemma {:induction false} ListsOfDistinct(list: seq<Snapshot>, values: set<Snapshot>)
    requires forall i, j :: 0 <= i < j < |list| ==> list[i] != list[j]
    requires forall x :: x in list <==> x in values
    ensures multiset(list) == multiset(values)
  {
    if list != [] {
      var x, rest := list[0], list[1..];
      assert list == [x] + rest;
      forall y ensures y in rest <==> y in values - {x} {
        assert y in list <==> y == x || y in rest;
      }
      ListsOfDistinct(rest, values - {x});
      assert values == (values - {x}) + {x};
    } else {
      assert forall x :: x !in values;
      assert values == {};
    }
  }

  class Storage {
    var snapshots: map<string, Snapshot>
    var lastBackup: map<string, Snapshot>
    var quotas: Quotas

    constructor ()
      ensures snapshots == map[] && lastBackup == map[] && quotas == Quotas(-1, -1, -1, -1, -1)
    {
      snapshots := map[];
      lastBackup := map[];
      quotas := Quotas(-1, -1, -1, -1, -1);
    }

    method InvalidateSnapshotStorage()
      modifies this`snapshots
      ensures snapshots == map[]
    {
      var keys := snapshots.Keys;
      while keys != {}
        invariant keys == snapshots.Keys
        decreases keys
      {
        var key :| key in keys;
        snapshots := snapshots - {key};
        keys := keys - {key};
      }
    }

    method CacheSnapshot(snapshot: Snapshot)
      modifies this`snapshots
      ensures snapshots == old(snapshots)[snapshot.id := snapshot]
    {
      snapshots := snapshots[snapshot.id := snapshot];
    }

    method StoreLastTimestamp(serviceId: string, snapshot: Snapshot)
      modifies this`lastBackup
      ensures lastBackup == old(lastBackup)[serviceId := snapshot]
    {
      lastBackup := lastBackup[serviceId := snapshot];
    }

    function GetCachedSnapshotById(id: string): Option<Snapshot>
      reads this
    {
      if id in snapshots then Some(snapshots[id]) else None
    }

    /** All cached snapshots, in whatever order Redis lists the keys. */
    method GetCachedSnapshots() returns (result: seq<Snapshot>)
      requires KeyedById(snapshots)
      ensures Lists(result, snapshots)
    {
      result := [];
      var keys := snapshots.Keys;
      while keys != {}
        invariant keys <= snapshots.Keys
        invariant forall i :: 0 <= i < |result| ==>
                    result[i].id in snapshots && result[i].id !in keys && snapshots[result[i].id] == result[i]
        invariant forall id :: id in snapshots && id !in keys ==> snapshots[id] in result
        invariant forall i, j :: 0 <= i < j < |result| ==> result[i] != result[j]
        decreases keys
      {
        var key :| key in keys;
        result := result + [snapshots[key]];
        keys := keys - {key};
      }
      ListsOfDistinct(result, snapshots.Values);
    }

    /** Every quota below -1 is stored as -1, so a stored quota is -1, 0 or positive. */
    method SetAutobackupQuotas(q: Quotas)
      modifies this`quotas
      ensures forall k :: 0 <= k < 5 ==>
                Fresh(quotas)[k].counter == if Fresh(q)[k].counter < -1 then -1 else Fresh(q)[k].counter
    {
      quotas := Quotas(StandardizeQuota(q.last), StandardizeQuota(q.daily), StandardizeQuota(q.weekly),
                       StandardizeQuota(q.monthly), StandardizeQuota(q.yearly));
    }
  }
}
