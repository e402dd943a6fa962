/** Whole runs of backups of any services and kinds, some of which fail on their way, under quotas
    that change: what the repository holds at the end, whatever order Redis listed the snapshots in. */
module BackupRuns {
  import opened Calendar
  import opened Retention
  import opened RetentionLaws
  import RetentionPeriods
  import opened BackupStorage
  import opened BackupProvider
  import opened BackupController

  datatype State = State(repo: Repository, quotas: Quotas)

  /** A backup succeeds; or fails with its snapshot stored, complete or not, and the rotation
      perhaps begun; or fails before that. Or the quotas are set, which rotates nothing by itself. */
  datatype Event = Completed(made: Stored) | Interrupted(made: Stored) | Refused | SetQuotas(quotas: Quotas)

  ghost predicate Step(s: State, e: Event, t: State) {
    match e
    case Completed(made) => BackedUp(s.repo, made, t.repo, s.quotas) && t.quotas == s.quotas
    case Interrupted(made) => CutShort(s.repo, made, t.repo, s.quotas) && t.quotas == s.quotas
    case Refused => t == s
    case SetQuotas(quotas) => t == s.(quotas := quotas)
  }

  ghost predicate Run(states: seq<State>, events: seq<Event>) {
    && |states| == |events| + 1 && states[0].repo == map[]
    && forall i :: 0 <= i < |events| ==> Step(states[i], events[i], states[i + 1])
  }

  predicate Makes(e: Event) { e.Completed? || e.Interrupted? }

  predicate Earlier(a: Snapshot, b: Snapshot) {
    a.serviceName == b.serviceName ==> Instant(a.createdAt) < Instant(b.createdAt)
  }

  /** Each service's snapshots are made at strictly later and later times. */
  ghost predicate Chronological(events: seq<Event>) {
    forall i, j :: 0 <= i < j < |events| && Makes(events[i]) && Makes(events[j]) ==>
      Earlier(events[i].made.snapshot, events[j].made.snapshot)
  }

  predicate MakesAuto(e: Event, serviceId: string) {
    Makes(e) && IsAutoOf(e.made.snapshot, serviceId)
  }

  /** Every automatic snapshot of a service ever stored, latest first. */
  function AutoHistory(events: seq<Event>, serviceId: string): seq<Snapshot> {
    if events == [] then []
    else
      var e, earlier := events[|events| - 1], AutoHistory(events[..|events| - 1], serviceId);
      if MakesAuto(e, serviceId) then [e.made.snapshot] + earlier else earlier
  }

  /** Event `i` is the last automatic backup of the service that stored anything, and succeeded. */
  predicate SettledAt(events: seq<Event>, serviceId: string, i: nat) {
    && i < |events| && MakesAuto(events[i], serviceId) && events[i].Completed?
    && forall j :: i < j < |events| ==> !MakesAuto(events[j], serviceId)
  }

  ghost function Elements(s: seq<Snapshot>): set<Snapshot> { set x | x in s }

  lemma {:induction false} HistoryMembers(events: seq<Event>, serviceId: string, x: Snapshot)
    requires x in AutoHistory(events, serviceId)
    ensures exists i :: 0 <= i < |events| && MakesAuto(events[i], serviceId) && events[i].made.snapshot == x
  {
    var n := |events| - 1;
    if x in AutoHistory(events[..n], serviceId) {
      HistoryMembers(events[..n], serviceId, x);
      var i :| 0 <= i < n && MakesAuto(events[..n][i], serviceId) && events[..n][i].made.snapshot == x;
      assert MakesAuto(events[i], serviceId);
    } else {
      assert MakesAuto(events[n], serviceId);
    }
  }

  lemma {:induction false} HistorySorted(events: seq<Event>, serviceId: string)
    requires Chronological(events)
    ensures StrictlySorted(AutoHistory(events, serviceId))
  {
    if events != [] {
      var n := |events| - 1;
      HistorySorted(events[..n], serviceId);
      if MakesAuto(events[n], serviceId) {
        forall y | y in AutoHistory(events[..n], serviceId)
          ensures Instant(y.createdAt) < Instant(events[n].made.snapshot.createdAt)
        {
          HistoryMembers(events[..n], serviceId, y);
        }
      }
    }
  }

  /** Any order in which some snapshots of a strictly sorted list can be listed once each sorts
      them strictly. */
  lemma SortsStrictly(order: seq<Snapshot>, values: set<Snapshot>, s: seq<Snapshot>)
    requires multiset(order) == multiset(values) && StrictlySorted(s) && values <= Elements(s)
    ensures StrictlySorted(NewestFirst(order)) && Elements(NewestFirst(order)) == values
  {
    var t := NewestFirst(order);
    NewestFirstSorts(order);
    RetentionPeriods.ListedOnce(t, values);
    ListedMembers(t, values);
    forall x | x in t ensures x in s {
      assert x in Elements(s);
    }
    StrictIfWithin(t, s);
  }

  lemma ListedMembers(t: seq<Snapshot>, values: set<Snapshot>)
    requires multiset(t) == multiset(values)
    ensures Elements(t) == values && forall x :: x in t <==> x in values
  {
    forall x ensures x in t <==> x in values {
      assert x in multiset(t) <==> x in multiset(values);
    }
  }

  lemma StrictIfWithin(t: seq<Snapshot>, s: seq<Snapshot>)
    requires Sorted(t) && RetentionPeriods.NoRepeats(t) && StrictlySorted(s)
    requires forall x :: x in t ==> x in s
    ensures StrictlySorted(t)
  {
    forall i, j | 0 <= i < j < |t| ensures Instant(t[j].createdAt) < Instant(t[i].createdAt) {
      assert NotNewer(t[j], t[i]) && t[i] != t[j];
      assert t[i] in s && t[j] in s;
      DistinctTimesApart(s, t[i], t[j]);
    }
  }

  lemma DistinctTimesApart(s: seq<Snapshot>, x: Snapshot, y: Snapshot)
    requires StrictlySorted(s) && x in s && y in s && x != y
    ensures Instant(x.createdAt) != Instant(y.createdAt)
  {
    var k :| 0 <= k < |s| && s[k] == x;
    var l :| 0 <= l < |s| && s[l] == y;
    if k < l {
      assert Instant(s[l].createdAt) < Instant(s[k].createdAt);
    } else {
      assert Instant(s[k].createdAt) < Instant(s[l].createdAt);
    }
  }

  /** Rotation of whatever lies between the pruned history and the whole history, listed in any
      order, keeps what pruning the whole history keeps. */
  lemma RotationOfBetween(order: seq<Snapshot>, values: set<Snapshot>, history: seq<Snapshot>, q: Quotas)
    requires multiset(order) == multiset(values) && StrictlySorted(history)
    requires Elements(Prune(history, q)) <= values <= Elements(history)
    ensures Prune(order, q) == Prune(history, q)
  {
    var t := NewestFirst(order);
    SortsStrictly(order, values, history);
    forall x ensures x in Prune(history, q) ==> x in t {
      assert x in Prune(history, q) ==> x in Elements(Prune(history, q));
      assert x in values ==> x in Elements(t);
    }
    forall x | x in t ensures x in history {
      assert x in Elements(t);
      assert x in Elements(history);
    }
    PruneOfBetween(t, history, q);
    SortedIfStrict(t);
    NewestFirstOfSorted(t);
  }

  /** What pruning keeps of a longer history, it kept of the shorter one. */
  lemma PruneGrows(x: Snapshot, history: seq<Snapshot>, q: Quotas)
    requires StrictlySorted([x] + history)
    ensures Elements(Prune([x] + history, q)) <= Elements(Prune(history, q)) + {x}
  {
    TailOfStrict([x] + history);
    assert ([x] + history)[1..] == history;
    PruneStepwise([x], history, q);
    RetainSorted([x] + Prune(history, q), q);
    forall y | y in Prune([x] + history, q) ensures y in Prune(history, q) || y == x {
      assert y in multiset([x] + Prune(history, q));
    }
  }

  // ----- What the repository holds -----

  lemma RunPrefix(states: seq<State>, events: seq<Event>, n: nat)
    requires Run(states, events) && n <= |events|
    ensures Run(states[..n + 1], events[..n])
    ensures Chronological(events) ==> Chronological(events[..n])
  {
    forall i | 0 <= i < n ensures Step(states[..n + 1][i], events[..n][i], states[..n + 1][i + 1]) {
      assert Step(states[i], events[i], states[i + 1]);
    }
  }

  /** The quotas are at each moment those last set. */
  lemma {:induction false} QuotasAreLastSet(states: seq<State>, events: seq<Event>, i: nat, n: nat)
    requires Run(states, events) && i < n <= |events| && events[i].SetQuotas?
    requires forall j :: i < j < n ==> !events[j].SetQuotas?
    ensures states[n].quotas == events[i].quotas
    decreases n
  {
    assert Step(states[n - 1], events[n - 1], states[n]);
    if i < n - 1 {
      QuotasAreLastSet(states, events, i, n - 1);
    }
  }

  /** A service's automatic snapshots are among those ever stored, and among them is everything
      that pruning its whole history once keeps. */
  ghost predicate HoldsPruned(repo: Repository, serviceId: string, history: seq<Snapshot>, q: Quotas) {
    Elements(Prune(history, q)) <= AutoSnaps(Listing(repo), serviceId) <= Elements(history)
  }

  /** `q` is at most what the quotas were in each of the first `n` states. */
  ghost predicate AtMostBefore(q: Quotas, states: seq<State>, n: nat)
    requires n <= |states|
  {
    forall j :: 0 <= j < n ==> QuotasAtMost(q, states[j].quotas)
  }

  /** After any run, failures included, nothing is lost that pruning each service's whole history
      once, with the smallest quotas that were ever set, would keep. */
  lemma {:induction false} RunKeepsPrunedHistory(states: seq<State>, events: seq<Event>, serviceId: string, q: Quotas)
    requires Run(states, events) && Chronological(events) && AtMostBefore(q, states, |events|)
    ensures HoldsPruned(states[|events|].repo, serviceId, AutoHistory(events, serviceId), q)
    decreases |events|
  {
    if events == [] {
      assert AutoSnaps(Listing(states[0].repo), serviceId) == {};
    } else {
      var n := |events| - 1;
      RunPrefix(states, events, n);
      RunKeepsPrunedHistory(states[..n + 1], events[..n], serviceId, q);
      assert Step(states[n], events[n], states[n + 1]);
      if MakesAuto(events[n], serviceId) {
        HistorySorted(events, serviceId);
        RotationStep(states[n], events[n], states[n + 1], AutoHistory(events[..n], serviceId), q);
      } else {
        OtherStep(states[n], events[n], states[n + 1], serviceId);
      }
    }
  }

  lemma {:induction false} StaysUnlessMade(states: seq<State>, events: seq<Event>, serviceId: string, i: nat, n: nat)
    requires Run(states, events) && i < n <= |events|
    requires forall j :: i < j < n ==> !MakesAuto(events[j], serviceId)
    ensures AutoSnaps(Listing(states[n].repo), serviceId) == AutoSnaps(Listing(states[i + 1].repo), serviceId)
    ensures AutoHistory(events[..n], serviceId) == AutoHistory(events[..i + 1], serviceId)
    decreases n
  {
    if i + 1 < n {
      StaysUnlessMade(states, events, serviceId, i, n - 1);
      assert Step(states[n - 1], events[n - 1], states[n]);
      OtherStep(states[n - 1], events[n - 1], states[n], serviceId);
      assert events[..n][..n - 1] == events[..n - 1];
    }
  }

  lemma CompletedLeavesPruned(states: seq<State>, events: seq<Event>, serviceId: string)
    requires Run(states, events) && Chronological(events) && events != []
    requires events[|events| - 1].Completed? && MakesAuto(events[|events| - 1], serviceId)
    requires AtMostBefore(states[|events| - 1].quotas, states, |events| - 1)
    ensures AutoSnaps(Listing(states[|events|].repo), serviceId)
         == Elements(Prune(AutoHistory(events, serviceId), states[|events| - 1].quotas))
  {
    var n := |events| - 1;
    var q := states[n].quotas;
    RunPrefix(states, events, n);
    RunKeepsPrunedHistory(states[..n + 1], events[..n], serviceId, q);
    HistorySorted(events, serviceId);
    assert Step(states[n], events[n], states[n + 1]);
    RotationStep(states[n], events[n], states[n + 1], AutoHistory(events[..n], serviceId), q);
  }

  /** And if its last automatic backup succeeded, under quotas no larger than any before, exactly
      what they keep of its whole history is left of a service, however many backups failed. */
  lemma RunLeavesPrunedHistory(states: seq<State>, events: seq<Event>, serviceId: string, i: nat)
    requires Run(states, events) && Chronological(events) && SettledAt(events, serviceId, i)
    requires AtMostBefore(states[i].quotas, states, i)
    ensures AutoSnaps(Listing(states[|events|].repo), serviceId)
         == Elements(Prune(AutoHistory(events, serviceId), states[i].quotas))
  {
    RunPrefix(states, events, i + 1);
    CompletedLeavesPruned(states[..i + 2], events[..i + 1], serviceId);
    StaysUnlessMade(states, events, serviceId, i, |events|);
    assert events[..|events|] == events;
  }

  lemma MoreQuotasMoreKept(order: seq<Snapshot>, q: Quotas, larger: Quotas)
    requires QuotasAtMost(q, larger)
    ensures Elements(Prune(order, q)) <= Elements(Prune(order, larger))
  {
    PruneMonotone(order, q, larger);
    SubsequenceMembers(Prune(order, q), Prune(order, larger));
    forall x | x in Prune(order, q) ensures x in Prune(order, larger) {
      assert x in multiset(Prune(order, q));
      assert x in multiset(Prune(order, larger));
    }
  }

  lemma OrderOf(s: State, e: Event, t: State) returns (order: seq<Snapshot>)
    requires Makes(e) && e.made.snapshot.reason == AUTO && Step(s, e, t)
    requires e.Completed? || t.repo != s.repo[e.made.snapshot.id := e.made]
    ensures var full, id := s.repo[e.made.snapshot.id := e.made], e.made.snapshot.serviceName;
            var dropped := Dropped(Listing(full), id, order, s.quotas);
            && Orders(order, Listing(full), id) && LosesAtMost(full, dropped, t.repo)
            && (e.Completed? ==> t.repo == full - dropped)
  {
    var full, id := s.repo[e.made.snapshot.id := e.made], e.made.snapshot.serviceName;
    if e.Completed? {
      order :| Rotated(s.repo, e.made, order, t.repo, s.quotas);
    } else {
      order :| Orders(order, Listing(full), id)
               && LosesAtMost(full, Dropped(Listing(full), id, order, s.quotas), t.repo);
    }
  }

  lemma RotationStep(s: State, e: Event, t: State, history: seq<Snapshot>, q: Quotas)
    requires Makes(e) && e.made.snapshot.reason == AUTO && Step(s, e, t) && QuotasAtMost(q, s.quotas)
    requires var x := e.made.snapshot;
             StrictlySorted([x] + history) && HoldsPruned(s.repo, x.serviceName, history, q)
    ensures var x := e.made.snapshot;
            && HoldsPruned(t.repo, x.serviceName, [x] + history, q)
            && (e.Completed? && q == s.quotas ==>
                  AutoSnaps(Listing(t.repo), x.serviceName) == Elements(Prune([x] + history, q)))
  {
    var x, id := e.made.snapshot, e.made.snapshot.serviceName;
    var full := s.repo[x.id := e.made];
    ListingOfMore(s.repo, x.id, e.made);
    AutoSnapsOfMore(Listing(s.repo), x, id);
    PruneGrows(x, history, q);
    ConsElements(x, history);
    if e.Completed? || t.repo != full {
      var order := OrderOf(s, e, t);
      RotationOfBetween(order, AutoSnaps(Listing(full), id), [x] + history, q);
      MoreQuotasMoreKept(order, q, s.quotas);
      AutoSnapsAfterDrop(full, id, order, s.quotas, t.repo);
    }
  }

  lemma ConsElements(x: Snapshot, s: seq<Snapshot>)
    ensures Elements([x] + s) == Elements(s) + {x}
  {
  }

  lemma AutoSnapsOfMore(listing: map<string, Snapshot>, x: Snapshot, serviceId: string)
    requires x.id !in listing
    ensures AutoSnaps(listing[x.id := x], serviceId)
         == AutoSnaps(listing, serviceId) + (if IsAutoOf(x, serviceId) then {x} else {})
  {
    var more := listing[x.id := x];
    forall y
      ensures y in AutoSnaps(more, serviceId)
         <==> y in AutoSnaps(listing, serviceId) || (y == x && IsAutoOf(x, serviceId))
    {
      if y in AutoSnaps(listing, serviceId) {
        var id :| id in listing && listing[id] == y && IsAutoOf(listing[id], serviceId);
        assert more[id] == y;
      }
      if y == x {
        assert more[x.id] == y;
      }
    }
  }

  lemma AutoSnapsAfterDrop(full: Repository, serviceId: string, order: seq<Snapshot>, q: Quotas, after: Repository)
    requires Orders(order, Listing(full), serviceId)
    requires LosesAtMost(full, Dropped(Listing(full), serviceId, order, q), after)
    ensures Elements(Prune(order, q)) <= AutoSnaps(Listing(after), serviceId) <= AutoSnaps(Listing(full), serviceId)
    ensures after == full - Dropped(Listing(full), serviceId, order, q) ==>
              AutoSnaps(Listing(after), serviceId) == Elements(Prune(order, q))
  {
    var listing, dropped := Listing(full), Dropped(Listing(full), serviceId, order, q);
    RetainSorted(order, q);
    forall x | x in Prune(order, q) ensures x in AutoSnaps(Listing(after), serviceId) {
      assert x in multiset(Prune(order, q));
      assert x in multiset(AutoSnaps(listing, serviceId));
      var id :| id in listing && IsAutoOf(listing[id], serviceId) && listing[id] == x;
      assert id !in dropped;
      assert Listing(after)[id] == x;
    }
    forall x | x in AutoSnaps(Listing(after), serviceId) ensures x in AutoSnaps(listing, serviceId) {
      var id :| id in Listing(after) && IsAutoOf(Listing(after)[id], serviceId) && Listing(after)[id] == x;
      assert listing[id] == x;
    }
  }

  lemma OtherStep(s: State, e: Event, t: State, serviceId: string)
    requires Step(s, e, t) && !MakesAuto(e, serviceId)
    ensures AutoSnaps(Listing(t.repo), serviceId) == AutoSnaps(Listing(s.repo), serviceId)
  {
    if Makes(e) {
      var x := e.made.snapshot;
      var full := s.repo[x.id := e.made];
      ListingOfMore(s.repo, x.id, e.made);
      AutoSnapsOfMore(Listing(s.repo), x, serviceId);
      if t.repo != full {
        var order := OrderOf(s, e, t);
        OthersSurviveDrop(full, x.serviceName, serviceId, order, s.quotas, t.repo);
      }
    }
  }

  lemma OthersSurviveDrop(full: Repository, other: string, serviceId: string, order: seq<Snapshot>, q: Quotas,
                          after: Repository)
    requires other != serviceId && LosesAtMost(full, Dropped(Listing(full), other, order, q), after)
    ensures AutoSnaps(Listing(after), serviceId) == AutoSnaps(Listing(full), serviceId)
  {
    var listing := Listing(full);
    forall x | x in AutoSnaps(listing, serviceId) ensures x in AutoSnaps(Listing(after), serviceId) {
      var id :| id in listing && IsAutoOf(listing[id], serviceId) && listing[id] == x;
      assert Listing(after)[id] == x;
    }
    forall x | x in AutoSnaps(Listing(after), serviceId) ensures x in AutoSnaps(listing, serviceId) {
      var id :| id in Listing(after) && IsAutoOf(Listing(after)[id], serviceId) && Listing(after)[id] == x;
      assert listing[id] == x;
    }
  }

  /** No run, whatever fails in it, ever loses an explicit or a fail-safe snapshot. */
  lemma {:induction false} RunKeepsOtherSnapshots(states: seq<State>, events: seq<Event>, i: nat)
    requires Run(states, events)
    requires i < |events| && Makes(events[i]) && events[i].made.snapshot.reason != AUTO
    ensures var id, repo := events[i].made.snapshot.id, states[|events|].repo;
            id in repo && repo[id] == events[i].made
    decreases |events|
  {
    var n := |events| - 1;
    assert Step(states[n], events[n], states[n + 1]);
    if i < n {
      RunPrefix(states, events, n);
      RunKeepsOtherSnapshots(states[..n + 1], events[..n], i);
    }
  }
}
