/** Planning a full restore: which snapshots belong to the last backup session, in which order
    they are restored, and the progress shown on the way. */
module RestorePlan {
  import opened Wrappers
  import opened Calendar
  import opened Retention
  import opened RetentionLaws

  const API_ID: string := "selfprivacy-api"

  datatype ServiceInfo = ServiceInfo(id: string, enabled: bool)

  /** The registry names every service once. */
  ghost predicate Registry(services: seq<ServiceInfo>) {
    forall i, j :: 0 <= i < j < |services| ==> services[i].id != services[j].id
  }

  datatype PlanError = NoConfigurationSnapshot

  function SnapshotsOf(cached: seq<Snapshot>, serviceId: string): (r: seq<Snapshot>)
    ensures forall x :: x in r <==> x in cached && x.serviceName == serviceId
  {
    if cached == [] then []
    else (if cached[0].serviceName == serviceId then [cached[0]] else []) + SnapshotsOf(cached[1..], serviceId)
  }

  /** Each snapshot of the service as often as it is cached. */
  lemma {:induction false} SnapshotsOfCounts(cached: seq<Snapshot>, serviceId: string, x: Snapshot)
    ensures multiset(SnapshotsOf(cached, serviceId))[x] == if x.serviceName == serviceId then multiset(cached)[x] else 0
  {
    if cached != [] {
      SnapshotsOfCounts(cached[1..], serviceId, x);
      assert cached == [cached[0]] + cached[1..];
    }
  }

  function PeriodMinutes(period: Option<int>): int {
    match period case None => 24 * 60 case Some(minutes) => minutes
  }

  predicate IsSameSlice(a: Snapshot, b: Snapshot, period: Option<int>) {
    var width := PeriodMinutes(period) * MICROS_PER_MINUTE;
    && !(Instant(a.createdAt) > Instant(b.createdAt) + width)
    && !(Instant(a.createdAt) < Instant(b.createdAt) - width)
  }

  /** `x` is a snapshot of the service than which the service has no newer one. */
  ghost predicate NewestOf(x: Snapshot, cached: seq<Snapshot>, serviceId: string) {
    && x in cached && x.serviceName == serviceId
    && forall y :: y in cached && y.serviceName == serviceId ==> NotNewer(y, x)
  }

  lemma NewestMeans(x: Snapshot, cached: seq<Snapshot>, serviceId: string)
    ensures NewestOf(x, cached, serviceId) <==>
              && x in cached && x.serviceName == serviceId
              && forall y :: y in cached && y.serviceName == serviceId ==> Instant(y.createdAt) <= Instant(x.createdAt)
  {
  }

  lemma HeadIsNewest(cached: seq<Snapshot>, serviceId: string)
    requires SnapshotsOf(cached, serviceId) != []
    ensures NewestFirst(SnapshotsOf(cached, serviceId)) != []
    ensures NewestOf(NewestFirst(SnapshotsOf(cached, serviceId))[0], cached, serviceId)
  {
    var mine := SnapshotsOf(cached, serviceId);
    var s := NewestFirst(mine);
    NewestFirstSorts(mine);
    assert mine[0] in multiset(s);
    assert s[0] in multiset(mine);
    forall y | y in cached && y.serviceName == serviceId ensures NotNewer(y, s[0]) {
      assert y in multiset(s);
      var i :| 0 <= i < |s| && s[i] == y;
      assert i > 0 ==> NotNewer(s[i], s[0]);
    }
  }

  /** The service's contribution to the slice around `api`: its newest snapshot, if it is close. */
  function Contribution(cached: seq<Snapshot>, serviceId: string, api: Snapshot, period: Option<int>): seq<Snapshot> {
    var snaps := NewestFirst(SnapshotsOf(cached, serviceId));
    if serviceId != API_ID && snaps != [] && IsSameSlice(snaps[0], api, period) then [snaps[0]] else []
  }

  function Contributions(services: seq<ServiceInfo>, cached: seq<Snapshot>, api: Snapshot, period: Option<int>)
    : seq<Snapshot>
  {
    if services == [] then []
    else
      Contributions(services[..|services| - 1], cached, api, period)
      + Contribution(cached, services[|services| - 1].id, api, period)
  }

  /** The services' snapshots made around the newest API snapshot, which comes last; empty when
      there is no API snapshot. */
  method LastBackupSlice(services: seq<ServiceInfo>, cached: seq<Snapshot>, period: Option<int>)
    returns (slice: seq<Snapshot>)
    ensures SnapshotsOf(cached, API_ID) == [] ==> slice == []
    ensures SnapshotsOf(cached, API_ID) != [] ==>
      && NewestFirst(SnapshotsOf(cached, API_ID)) != []
      && var api := NewestFirst(SnapshotsOf(cached, API_ID))[0];
         NewestOf(api, cached, API_ID) && slice == Contributions(services, cached, api, period) + [api]
  {
    slice := [];
    var apiSnaps := SnapshotsOf(cached, API_ID);
    if apiSnaps == [] {
      return;
    }
    HeadIsNewest(cached, API_ID);
    apiSnaps := NewestFirst(apiSnaps);
    var apiSnap := apiSnaps[0];
    for i := 0 to |services|
      invariant slice == Contributions(services[..i], cached, apiSnap, period)
    {
      assert services[..i + 1][..i] == services[..i];
      if services[i].id == API_ID {
        continue;
      }
      var snaps := NewestFirst(SnapshotsOf(cached, services[i].id));
      if snaps != [] && IsSameSlice(snaps[0], apiSnap, period) {
        slice := slice + [snaps[0]];
      }
    }
    assert services[..|services|] == services;
    slice := slice + [apiSnap];
  }

  lemma ContributionIsNewest(cached: seq<Snapshot>, serviceId: string, api: Snapshot, period: Option<int>)
    ensures var c := Contribution(cached, serviceId, api, period);
            c != [] ==>
              && |c| == 1 && serviceId != API_ID
              && NewestOf(c[0], cached, serviceId) && IsSameSlice(c[0], api, period)
  {
    var mine := SnapshotsOf(cached, serviceId);
    NewestFirstSorts(mine);
    if mine != [] {
      HeadIsNewest(cached, serviceId);
    } else {
      assert NewestFirst(mine) == [];
    }
  }

  lemma {:induction false} SliceMembersHaveService(services: seq<ServiceInfo>, cached: seq<Snapshot>, api: Snapshot,
                                                  period: Option<int>, x: Snapshot)
    requires x in Contributions(services, cached, api, period)
    decreases |services|
    ensures exists k :: 0 <= k < |services| && services[k].id == x.serviceName
    ensures x in Contribution(cached, x.serviceName, api, period)
  {
    var n := |services| - 1;
    if x in Contributions(services[..n], cached, api, period) {
      SliceMembersHaveService(services[..n], cached, api, period, x);
      var k :| 0 <= k < n && services[..n][k].id == x.serviceName;
      assert services[k].id == x.serviceName;
    } else {
      ContributionIsNewest(cached, services[n].id, api, period);
      assert services[n].id == x.serviceName;
    }
  }

  lemma PrefixStep(services: seq<ServiceInfo>, cached: seq<Snapshot>, api: Snapshot, period: Option<int>, k: nat)
    requires k < |services|
    ensures Contributions(services[..k + 1], cached, api, period)
         == Contributions(services[..k], cached, api, period) + Contribution(cached, services[k].id, api, period)
  {
    assert services[..k + 1][..k] == services[..k];
  }

  lemma {:induction false} PrefixesGrow(services: seq<ServiceInfo>, cached: seq<Snapshot>, api: Snapshot,
                                        period: Option<int>, k: nat, n: nat, x: Snapshot)
    requires k <= n <= |services| && x in Contributions(services[..k], cached, api, period)
    ensures x in Contributions(services[..n], cached, api, period)
    decreases n
  {
    if k < n {
      PrefixesGrow(services, cached, api, period, k, n - 1, x);
      PrefixStep(services, cached, api, period, n - 1);
    }
  }

  lemma SliceTakesContribution(services: seq<ServiceInfo>, cached: seq<Snapshot>, api: Snapshot, period: Option<int>,
                               k: nat, x: Snapshot)
    requires k < |services| && x in Contribution(cached, services[k].id, api, period)
    ensures x in Contributions(services, cached, api, period)
  {
    PrefixStep(services, cached, api, period, k);
    PrefixesGrow(services, cached, api, period, k + 1, |services|, x);
    assert services[..|services|] == services;
  }

  /** A snapshot is in the slice exactly when its service is registered and contributes it. */
  lemma SliceMembers(services: seq<ServiceInfo>, cached: seq<Snapshot>, api: Snapshot, period: Option<int>, x: Snapshot)
    ensures x in Contributions(services, cached, api, period) <==>
              && x in Contribution(cached, x.serviceName, api, period)
              && exists k :: 0 <= k < |services| && services[k].id == x.serviceName
  {
    if x in Contributions(services, cached, api, period) {
      SliceMembersHaveService(services, cached, api, period, x);
    } else if exists k :: 0 <= k < |services| && services[k].id == x.serviceName {
      var k :| 0 <= k < |services| && services[k].id == x.serviceName;
      if x in Contribution(cached, x.serviceName, api, period) {
        SliceTakesContribution(services, cached, api, period, k, x);
      }
    }
  }

  /** Every snapshot of the slice is its service's newest and at most a period away from the API
      snapshot, or a day if automatic backups are off, and none is the API's. */
  lemma SliceIsRecent(services: seq<ServiceInfo>, cached: seq<Snapshot>, api: Snapshot, period: Option<int>,
                      x: Snapshot)
    requires x in Contributions(services, cached, api, period)
    ensures NewestOf(x, cached, x.serviceName) && x.serviceName != "selfprivacy-api"
    ensures var away := Instant(x.createdAt) - Instant(api.createdAt);
            match period
            case None => -24 * 60 * 60_000_000 <= away <= 24 * 60 * 60_000_000
            case Some(minutes) => -minutes * 60_000_000 <= away <= minutes * 60_000_000
  {
    SliceMembers(services, cached, api, period, x);
    ContributionIsNewest(cached, x.serviceName, api, period);
  }

  /** And none is missing: the newest snapshot of a registered service is in the slice exactly if it
      is that close. */
  lemma SliceIsComplete(services: seq<ServiceInfo>, cached: seq<Snapshot>, api: Snapshot, period: Option<int>,
                        k: nat, x: Snapshot)
    requires k < |services| && services[k].id != "selfprivacy-api"
    requires var mine := NewestFirst(SnapshotsOf(cached, services[k].id)); mine != [] && x == mine[0]
    ensures x in Contributions(services, cached, api, period) <==>
              var away := Instant(x.createdAt) - Instant(api.createdAt);
              match period
              case None => -24 * 60 * 60_000_000 <= away <= 24 * 60 * 60_000_000
              case Some(minutes) => -minutes * 60_000_000 <= away <= minutes * 60_000_000
  {
    if x in Contributions(services, cached, api, period) {
      SliceIsRecent(services, cached, api, period, x);
    } else if x in Contribution(cached, services[k].id, api, period) {
      SliceTakesContribution(services, cached, api, period, k, x);
    }
  }

  /** The slice holds at most one snapshot per service. */
  lemma {:induction false} SliceOnePerService(services: seq<ServiceInfo>, cached: seq<Snapshot>, api: Snapshot,
                                              period: Option<int>)
    requires Registry(services)
    ensures OnePerService(Contributions(services, cached, api, period))
  {
    if services != [] {
      var n := |services| - 1;
      var front := services[..n];
      var earlier := Contributions(front, cached, api, period);
      SliceOnePerService(front, cached, api, period);
      ContributionIsNewest(cached, services[n].id, api, period);
      forall i | 0 <= i < |earlier| ensures earlier[i].serviceName != services[n].id {
        SliceMembersHaveService(front, cached, api, period, earlier[i]);
        var k :| 0 <= k < |front| && front[k].id == earlier[i].serviceName;
        assert services[k] == front[k];
      }
    }
  }

  /** The services of the snapshots, from the last to the first, are found on a way back through
      the registry. */
  ghost predicate FollowsRegistry(slice: seq<Snapshot>, services: seq<ServiceInfo>)
    decreases |services|
  {
    var n, m := |services| - 1, |slice| - 1;
    if services == [] then slice == []
    else
      || FollowsRegistry(slice, services[..n])
      || (slice != [] && slice[m].serviceName == services[n].id && FollowsRegistry(slice[..m], services[..n]))
  }

  /** Its snapshots come in the order in which their services are registered. */
  lemma {:induction false} SliceFollowsRegistry(services: seq<ServiceInfo>, cached: seq<Snapshot>, api: Snapshot,
                                                period: Option<int>)
    ensures FollowsRegistry(Contributions(services, cached, api, period), services)
    decreases |services|
  {
    if services != [] {
      var n := |services| - 1;
      var earlier, last := Contributions(services[..n], cached, api, period),
                           Contribution(cached, services[n].id, api, period);
      SliceFollowsRegistry(services[..n], cached, api, period);
      ContributionIsNewest(cached, services[n].id, api, period);
      assert last != [] ==> (earlier + last)[..|earlier|] == earlier;
      assert last == [] ==> earlier + last == earlier;
    }
  }

  ghost predicate OnePerService(slice: seq<Snapshot>) {
    forall i, j :: 0 <= i < j < |slice| ==> slice[i].serviceName != slice[j].serviceName
  }

  lemma SliceWithoutApi(services: seq<ServiceInfo>, cached: seq<Snapshot>, api: Snapshot, period: Option<int>)
    ensures forall x :: x in Contributions(services, cached, api, period) ==> x.serviceName != API_ID
  {
    forall x | x in Contributions(services, cached, api, period) ensures x.serviceName != API_ID {
      SliceIsRecent(services, cached, api, period, x);
    }
  }

  // ----- The plan -----

  function GetServiceById(services: seq<ServiceInfo>, serviceId: string): Option<ServiceInfo> {
    if services == [] then None
    else if services[0].id == serviceId then Some(services[0])
    else GetServiceById(services[1..], serviceId)
  }

  predicate IsEnabled(services: seq<ServiceInfo>, serviceId: string) {
    var service := GetServiceById(services, serviceId);
    service.Some? && service.value.enabled
  }

  function Eligible(services: seq<ServiceInfo>, slice: seq<Snapshot>): (r: seq<Snapshot>)
    ensures forall x :: x in r <==> x in slice && IsEnabled(services, x.serviceName)
  {
    if slice == [] then []
    else (if IsEnabled(services, slice[0].serviceName) then [slice[0]] else []) + Eligible(services, slice[1..])
  }

  /** The first registered service of that name decides. */
  lemma {:induction false} FirstOfNameDecides(services: seq<ServiceInfo>, serviceId: string)
    ensures IsEnabled(services, serviceId) <==>
              exists k :: && 0 <= k < |services| && services[k].id == serviceId && services[k].enabled
                          && forall j :: 0 <= j < k ==> services[j].id != serviceId
  {
    if services != [] && services[0].id != serviceId {
      var rest := services[1..];
      FirstOfNameDecides(rest, serviceId);
      assert forall k :: 0 <= k < |rest| ==> rest[k] == services[k + 1];
      assert forall k :: 0 < k < |services| ==> services[k] == rest[k - 1];
    }
  }

  /** What is restored before the API snapshot: of every enabled service, its newest snapshot if it
      is close to the API's. */
  lemma PlanMembers(services: seq<ServiceInfo>, cached: seq<Snapshot>, api: Snapshot, period: Option<int>,
                    k: nat, x: Snapshot)
    requires Registry(services) && k < |services| && x.serviceName == services[k].id
    ensures x in Eligible(services, Contributions(services, cached, api, period)) <==>
              && services[k].enabled && services[k].id != "selfprivacy-api"
              && (var mine := NewestFirst(SnapshotsOf(cached, services[k].id)); mine != [] && x == mine[0])
              && var away := Instant(x.createdAt) - Instant(api.createdAt);
                 match period
                 case None => -24 * 60 * 60_000_000 <= away <= 24 * 60 * 60_000_000
                 case Some(minutes) => -minutes * 60_000_000 <= away <= minutes * 60_000_000
  {
    FirstOfNameDecides(services, services[k].id);
    SliceMembers(services, cached, api, period, x);
    if x in Contributions(services, cached, api, period) {
      SliceIsRecent(services, cached, api, period, x);
    }
    var mine := NewestFirst(SnapshotsOf(cached, services[k].id));
    if services[k].id != "selfprivacy-api" && mine != [] && x == mine[0] {
      SliceIsComplete(services, cached, api, period, k, x);
    }
  }

  /** The enabled members keep their order. */
  lemma {:induction false} EligibleInOrder(services: seq<ServiceInfo>, slice: seq<Snapshot>)
    ensures IsSubsequence(Eligible(services, slice), slice)
  {
    if slice != [] {
      EligibleInOrder(services, slice[1..]);
      var rest := Eligible(services, slice[1..]);
      if IsEnabled(services, slice[0].serviceName) {
        assert Eligible(services, slice) == [slice[0]] + rest && ([slice[0]] + rest)[1..] == rest;
      } else {
        assert Eligible(services, slice) == rest;
      }
    }
  }

  /** Python's `list.remove`: drops the first equal element. */
  function RemoveFirst(s: seq<Snapshot>, x: Snapshot): seq<Snapshot> {
    if s == [] then [] else if s[0] == x then s[1..] else [s[0]] + RemoveFirst(s[1..], x)
  }

  lemma {:induction false} RemoveLast(s: seq<Snapshot>, x: Snapshot)
    requires x !in s
    ensures RemoveFirst(s + [x], x) == s
  {
    if s == [] {
    } else {
      assert (s + [x])[1..] == s[1..] + [x];
      RemoveLast(s[1..], x);
    }
  }

  /** The plan: the eligible members of the slice in order, then the API snapshot, once. It fails
      exactly when there is no API snapshot, which the code takes to be unreachable. Elements are
      removed from the list while it is being walked. */
  method WhichSnapshotsToFullRestore(services: seq<ServiceInfo>, cached: seq<Snapshot>, period: Option<int>)
    returns (r: Result<seq<Snapshot>, PlanError>)
    ensures r.Err? <==> forall x :: x in cached ==> x.serviceName != "selfprivacy-api"
    ensures r.Ok? ==>
      && r.value != []
      && var api := r.value[|r.value| - 1];
         && api in cached && api.serviceName == "selfprivacy-api"
         && (forall y :: y in cached && y.serviceName == "selfprivacy-api" ==>
               Instant(y.createdAt) <= Instant(api.createdAt))
         && r.value == Eligible(services, Contributions(services, cached, api, period)) + [api]
  {
    var autoslice := LastBackupSlice(services, cached, period);
    var apiSnapshot: Option<Snapshot> := None;
    ghost var slice, n := autoslice, |autoslice| - 1;
    if slice != [] {
      SliceWithoutApi(services, cached, slice[n], period);
      assert slice[..n] == Contributions(services, cached, slice[n], period);
      assert slice == slice[..n] + [slice[n]];
    }
    var i := 0;
    while i < |autoslice|
      invariant i <= |slice|
      invariant if i == |slice| && slice != [] then autoslice == slice[..n] && apiSnapshot == Some(slice[n])
                else autoslice == slice && apiSnapshot == None
      decreases |slice| - i
    {
      var snap := autoslice[i];
      assert i < n ==> snap == slice[..n][i] && snap in slice[..n];
      if snap.serviceName == API_ID {
        apiSnapshot := Some(snap);
        RemoveLast(slice[..n], slice[n]);
        autoslice := RemoveFirst(autoslice, snap);
      }
      i := i + 1;
    }
    match apiSnapshot {
      case None => return Err(NoConfigurationSnapshot);
      case Some(api) => return Ok(Eligible(services, autoslice) + [api]);
    }
  }

  // ----- Carrying it out -----

  ghost predicate NeverFalls(progress: seq<int>) {
    forall i, j :: 0 <= i < j < |progress| ==> progress[i] <= progress[j]
  }

  /** The values shown up to step `done` when each step adds `unit`, starting from 0. */
  ghost predicate Shown(progress: seq<int>, done: nat, unit: nat) {
    && |progress| == done + 1
    && forall k :: 0 <= k <= done ==> progress[k] == unit * k
  }

  lemma ShownNeverFalls(progress: seq<int>, done: nat, unit: nat, count: nat, total: nat)
    requires Shown(progress, done, unit) && done <= count && unit * count <= total
    ensures NeverFalls(progress)
    ensures forall k :: 0 <= k < |progress| ==> 0 <= progress[k] <= total
  {
    forall i, j | 0 <= i < j < |progress| ensures progress[i] <= progress[j] {
      Scaled(unit, i, j);
    }
    forall k | 0 <= k < |progress| ensures 0 <= progress[k] <= total {
      Scaled(unit, k, count);
    }
  }

  lemma Scaled(unit: nat, i: nat, n: nat)
    requires i <= n
    ensures 0 <= unit * i <= unit * n
  {
  }

  lemma Quotient(total: nat, count: nat)
    requires count > 0
    ensures 0 <= total / count * count <= total
  {
  }

  lemma Stepped(unit: nat, i: nat)
    ensures unit * (i + 1) == unit * i + unit
  {
  }

  /** Restores the snapshots in order, stopping at the first failure; `progress` lists the values
      shown. They go up evenly, never fall, and end at 99 when everything is restored. */
  method RestoreAll(todo: seq<Snapshot>, succeeds: Snapshot -> bool)
    returns (restored: seq<Snapshot>, progress: seq<int>)
    requires todo != []
    ensures restored <= todo && forall x :: x in restored ==> succeeds(x)
    ensures |restored| < |todo| ==> !succeeds(todo[|restored|])
    ensures |progress| == |restored| + (if restored == todo then 2 else 1)
    ensures forall k :: 0 <= k <= |restored| ==> progress[k] == 99 / |todo| * k
    ensures restored == todo ==> progress[|progress| - 1] == 99
    ensures NeverFalls(progress)
    ensures forall k :: 0 <= k < |progress| ==> 0 <= progress[k] <= 99
  {
    var progressPerService, shown := 99 / |todo|, 0;
    Quotient(99, |todo|);
    restored, progress := [], [shown];
    for i := 0 to |todo|
      invariant restored == todo[..i] && forall x :: x in restored ==> succeeds(x)
      invariant shown == progressPerService * i
      invariant Shown(progress, i, progressPerService)
    {
      if !succeeds(todo[i]) {
        ShownNeverFalls(progress, i, progressPerService, |todo|, 99);
        return;
      }
      Stepped(progressPerService, i);
      restored := restored + [todo[i]];
      shown := shown + progressPerService;
      progress := progress + [shown];
    }
    ShownNeverFalls(progress, |todo|, progressPerService, |todo|, 99);
    progress := progress + [99];
  }

  lemma StartsAtZero(shown: seq<int>)
    requires NeverFalls(shown) && forall k :: 0 <= k < |shown| ==> 0 <= shown[k] <= 99
    ensures NeverFalls([0] + shown) && forall k :: 0 <= k < |shown| + 1 ==> 0 <= ([0] + shown)[k] <= 99
  {
  }

  /** The full restore: on any failure the API snapshot, which triggers a rebuild, has not been
      restored. */
  method DoFullRestore(services: seq<ServiceInfo>, cached: seq<Snapshot>, period: Option<int>,
                       succeeds: Snapshot -> bool)
    returns (restored: seq<Snapshot>, progress: seq<int>, plan: Result<seq<Snapshot>, PlanError>)
    ensures progress != [] && NeverFalls(progress)
    ensures forall k :: 0 <= k < |progress| ==> 0 <= progress[k] <= 99
    ensures plan.Err? <==> forall x :: x in cached ==> x.serviceName != "selfprivacy-api"
    ensures plan.Err? ==> restored == []
    ensures plan.Ok? ==>
      && plan.value != []
      && var api := plan.value[|plan.value| - 1];
         && api in cached && api.serviceName == "selfprivacy-api"
         && (forall y :: y in cached && y.serviceName == "selfprivacy-api" ==>
               Instant(y.createdAt) <= Instant(api.createdAt))
         && plan.value == Eligible(services, Contributions(services, cached, api, period)) + [api]
    ensures plan.Ok? ==>
      && restored <= plan.value && (forall x :: x in restored ==> succeeds(x))
      && (|restored| < |plan.value| ==> !succeeds(plan.value[|restored|]))
    ensures plan.Ok? && restored == plan.value ==> progress[|progress| - 1] == 99
    ensures plan.Ok? && restored != plan.value ==> forall x :: x in restored ==> x.serviceName != "selfprivacy-api"
  {
    restored, progress := [], [0];
    plan := WhichSnapshotsToFullRestore(services, cached, period);
    if plan.Ok? {
      var shown;
      restored, shown := RestoreAll(plan.value, succeeds);
      StartsAtZero(shown);
      progress := [0] + shown;
      PlanEndsWithApi(services, cached, plan.value, period);
      assert restored != plan.value ==> |restored| < |plan.value|;
    }
  }

  lemma PlanEndsWithApi(services: seq<ServiceInfo>, cached: seq<Snapshot>, plan: seq<Snapshot>, period: Option<int>)
    requires plan != []
    requires var api := plan[|plan| - 1];
             plan == Eligible(services, Contributions(services, cached, api, period)) + [api]
    ensures forall i :: 0 <= i < |plan| - 1 ==> plan[i].serviceName != API_ID
  {
    var api := plan[|plan| - 1];
    var front := Eligible(services, Contributions(services, cached, api, period));
    SliceWithoutApi(services, cached, api, period);
    forall i | 0 <= i < |plan| - 1 ensures plan[i].serviceName != API_ID {
      assert plan[i] == front[i] && front[i] in front;
    }
  }

  /** Backing up several services, stopping at the first failure: the same bookkeeping with 100. */
  method BackUpMultiple(count: nat, succeeds: nat -> bool) returns (done: nat, progress: seq<int>)
    ensures done <= count && forall k :: 0 <= k < done ==> succeeds(k)
    ensures done < count ==> !succeeds(done)
    ensures NeverFalls(progress) && forall k :: 0 <= k < |progress| ==> 0 <= progress[k] <= 100
    ensures count == 0 ==> progress == []
    ensures count > 0 ==> |progress| == done + 1 && forall k :: 0 <= k <= done ==> progress[k] == 100 / count * k
  {
    done, progress := 0, [];
    if count == 0 {
      return;
    }
    var progressPerService, shown := 100 / count, 0;
    Quotient(100, count);
    progress := [shown];
    while done < count
      invariant done <= count && forall k :: 0 <= k < done ==> succeeds(k)
      invariant shown == progressPerService * done
      invariant Shown(progress, done, progressPerService)
    {
      if !succeeds(done) {
        break;
      }
      Stepped(progressPerService, done);
      shown := shown + progressPerService;
      done, progress := done + 1, progress + [shown];
    }
    ShownNeverFalls(progress, done, progressPerService, count, 100);
  }
}
