/** What each bucket selects by itself, in closed form, and that the interleaved loop keeps
    exactly the union of the five selections. */
module RetentionPeriods {
  import opened Calendar
  import opened Retention
  import opened RetentionLaws

  // ----- One bucket alone, over the keys of a newest-first list -----

  function Keys(p: Period, s: seq<Snapshot>): (r: seq<int>)
    ensures |r| == |s| && forall i :: 0 <= i < |s| ==> r[i] == RotationKey(p, s[i].createdAt, i)
  {
    seq(|s|, i requires 0 <= i < |s| => RotationKey(p, s[i].createdAt, i))
  }

  /** The rotation functions name positions, days, months and years one to one; the weekly one
      names pairs of a calendar year and an ISO week number. */
  lemma RotationKeysNamePeriods(a: DateTime, b: DateTime, i: int, j: int)
    ensures RotationKey(Last, a, i) == RotationKey(Last, b, j) <==> i == j
    ensures RotationKey(Daily, a, i) == RotationKey(Daily, b, j) <==> Ordinal(a) == Ordinal(b)
    ensures RotationKey(Weekly, a, i) == RotationKey(Weekly, b, j) <==>
              a.year == b.year && IsoWeek(a).1 == IsoWeek(b).1
    ensures RotationKey(Monthly, a, i) == RotationKey(Monthly, b, j) <==> a.year == b.year && a.month == b.month
    ensures RotationKey(Yearly, a, i) == RotationKey(Yearly, b, j) <==> a.year == b.year
  {
    DailyKeyNamesDay(a, b);
    WeeklyKeyParts(a, b);
  }

  lemma DailyKeyNamesDay(a: DateTime, b: DateTime)
    ensures DailyKey(a) == DailyKey(b) <==> Ordinal(a) == Ordinal(b)
  {
    OrdinalOrder(a, b);
    OrdinalOrder(b, a);
  }

  /** Position `i` opens a run of equal keys. */
  predicate IsHead(keys: seq<int>, i: nat)
    requires i < |keys|
  {
    i == 0 || keys[i] != keys[i - 1]
  }

  function Heads(keys: seq<int>, i: nat): nat
    requires i <= |keys|
  {
    if i == 0 then 0 else Heads(keys, i - 1) + (if IsHead(keys, i - 1) then 1 else 0)
  }

  predicate Room(quota: int, used: nat) { quota == -1 || used < quota }

  /** A bucket selects the heads of the first `quota` runs, and the oldest position if quota is
      left when it gets there. */
  predicate Selected(keys: seq<int>, quota: int, i: nat)
    requires i < |keys|
  {
    Room(quota, Heads(keys, i)) && (IsHead(keys, i) || i == |keys| - 1)
  }

  function QuotaFor(q: Quotas, p: Period): int {
    match p
    case Last => q.last
    case Daily => q.daily
    case Weekly => q.weekly
    case Monthly => q.monthly
    case Yearly => q.yearly
  }

  predicate SelectedBy(p: Period, q: Quotas, s: seq<Snapshot>, i: nat)
    requires i < |s|
  {
    Selected(Keys(p, s), QuotaFor(q, p), i)
  }

  ghost predicate KeptAt(q: Quotas, s: seq<Snapshot>, i: nat)
    requires i < |s|
  {
    exists p :: SelectedBy(p, q, s, i)
  }

  /** The snapshots from position `i` on that some bucket, run alone, selects; each once, in order. */
  ghost function Union(q: Quotas, s: seq<Snapshot>, i: nat): seq<Snapshot>
    requires i <= |s|
    decreases |s| - i
  {
    if i == |s| then [] else (if KeptAt(q, s, i) then [s[i]] else []) + Union(q, s, i + 1)
  }

  // ----- The loop computes the union -----

  function After(b: Bucket, s: seq<Snapshot>, i: nat): Bucket
    requires i < |s|
  {
    if i == 0 then b else Turn(After(b, s, i - 1), s[i - 1], false)
  }

  /** What a fresh bucket has become when it gets to position `i`. */
  ghost predicate ClosedForm(b: Bucket, p: Period, quota: int, keys: seq<int>, i: nat)
    requires i < |keys|
  {
    var used := Heads(keys, i);
    && b.period == p
    && (Open(b) <==> Room(quota, used))
    && (Open(b) ==> b.counter == if quota == -1 then -1 else quota - used)
    && (Open(b) ==> b.last == if i == 0 || p.Last? then -1 else keys[i - 1])
  }

  lemma ClosedFormStep(b: Bucket, p: Period, quota: int, s: seq<Snapshot>, i: nat)
    requires i + 1 < |s| && ClosedForm(b, p, quota, Keys(p, s), i)
    ensures ClosedForm(Turn(b, s[i], false), p, quota, Keys(p, s), i + 1)
  {
    KeysPositive(s[i].createdAt);
  }

  lemma {:induction false} BucketInClosedForm(p: Period, quota: int, s: seq<Snapshot>, i: nat)
    requires i < |s|
    ensures ClosedForm(After(Bucket(p, quota, -1), s, i), p, quota, Keys(p, s), i)
  {
    if i > 0 {
      var b := After(Bucket(p, quota, -1), s, i - 1);
      BucketInClosedForm(p, quota, s, i - 1);
      ClosedFormStep(b, p, quota, s, i - 1);
      assert After(Bucket(p, quota, -1), s, i) == Turn(b, s[i - 1], false);
    }
  }

  lemma TakesIsSelected(p: Period, quota: int, s: seq<Snapshot>, i: nat)
    requires i < |s|
    ensures Takes(After(Bucket(p, quota, -1), s, i), s[i], i == |s| - 1) <==> Selected(Keys(p, s), quota, i)
  {
    BucketInClosedForm(p, quota, s, i);
    KeysPositive(s[i].createdAt);
  }

  function AfterAll(q: Quotas, s: seq<Snapshot>, i: nat): (r: seq<Bucket>)
    requires i < |s|
    ensures |r| == 5 && forall k :: 0 <= k < 5 ==> r[k] == After(Fresh(q)[k], s, i)
  {
    seq(5, k requires 0 <= k < 5 => After(Fresh(q)[k], s, i))
  }

  const PERIODS: seq<Period> := [Last, Daily, Weekly, Monthly, Yearly]

  lemma TakesIsSelectedBy(q: Quotas, s: seq<Snapshot>, i: nat, k: nat)
    requires i < |s| && k < 5
    ensures Takes(After(Fresh(q)[k], s, i), s[i], i == |s| - 1) <==> SelectedBy(PERIODS[k], q, s, i)
  {
    var p := PERIODS[k];
    assert Fresh(q)[k] == Bucket(p, QuotaFor(q, p), -1);
    TakesIsSelected(p, QuotaFor(q, p), s, i);
  }

  function PositionOf(p: Period): (k: nat)
    ensures k < 5 && PERIODS[k] == p
  {
    match p case Last => 0 case Daily => 1 case Weekly => 2 case Monthly => 3 case Yearly => 4
  }

  lemma AnyTakesIsKept(q: Quotas, s: seq<Snapshot>, i: nat)
    requires i < |s|
    ensures AnyTakes(AfterAll(q, s, i), s[i], i == |s| - 1) <==> KeptAt(q, s, i)
  {
    var bs, oldest := AfterAll(q, s, i), i == |s| - 1;
    if AnyTakes(bs, s[i], oldest) {
      var k :| 0 <= k < |bs| && Takes(bs[k], s[i], oldest);
      TakesIsSelectedBy(q, s, i, k);
    }
    if KeptAt(q, s, i) {
      var p :| SelectedBy(p, q, s, i);
      TakesIsSelectedBy(q, s, i, PositionOf(p));
      assert Takes(bs[PositionOf(p)], s[i], oldest);
    }
  }

  lemma {:induction false} RetainFromHere(q: Quotas, s: seq<Snapshot>, i: nat)
    requires i < |s|
    ensures Retain(AfterAll(q, s, i), s[i..]) == Union(q, s, i)
    decreases |s| - i
  {
    AnyTakesIsKept(q, s, i);
    RetainStep(AfterAll(q, s, i), s, i);
    var next := TurnAll(AfterAll(q, s, i), s[i], i == |s| - 1);
    if i + 1 < |s| {
      RetainFromHere(q, s, i + 1);
      assert next == AfterAll(q, s, i + 1);
    }
    var done: seq<Snapshot> := [];
    assert done + Retain(AfterAll(q, s, i), s[i..]) == Retain(AfterAll(q, s, i), s[i..]);
    assert done + Retain(next, s[i + 1..]) == Retain(next, s[i + 1..]);
  }

  /** The interleaved loop refines five independent runs. */
  lemma PruneIsUnion(snapshots: seq<Snapshot>, q: Quotas)
    ensures Prune(snapshots, q) == Union(q, NewestFirst(snapshots), 0)
  {
    var s := NewestFirst(snapshots);
    if s != [] {
      RetainFromHere(q, s, 0);
      assert AfterAll(q, s, 0) == Fresh(q);
      assert s[0..] == s;
    }
  }

  // ----- What the selections mean -----

  ghost predicate NeverRises(keys: seq<int>) {
    forall i, j :: 0 <= i <= j < |keys| ==> keys[j] <= keys[i]
  }

  /** The distinct keys among the first `i`. */
  ghost function KeysBefore(keys: seq<int>, i: nat): set<int>
    requires i <= |keys|
  {
    set j | 0 <= j < i :: keys[j]
  }

  /** The distinct keys, in the whole list, of periods newer than that of position `i`. */
  ghost function NewerKeys(keys: seq<int>, i: nat): set<int>
    requires i < |keys|
  {
    set j | 0 <= j < |keys| && keys[j] > keys[i] :: keys[j]
  }

  /** Position `i` holds the newest snapshot of its period. */
  ghost predicate NewestOfPeriod(keys: seq<int>, i: nat)
    requires i < |keys|
  {
    forall j :: 0 <= j < i ==> keys[j] != keys[i]
  }

  /** Position `i` holds the newest snapshot of one of the `quota` newest distinct periods, or it is
      the oldest position and fewer than `quota` distinct periods came before it. */
  ghost predicate OfNewestPeriods(keys: seq<int>, quota: int, i: nat)
    requires i < |keys|
  {
    || (NewestOfPeriod(keys, i) && Room(quota, |NewerKeys(keys, i)|))
    || (i == |keys| - 1 && Room(quota, |KeysBefore(keys, i)|))
  }

  lemma HeadIsNewest(keys: seq<int>, i: nat)
    requires NeverRises(keys) && i < |keys|
    ensures IsHead(keys, i) <==> NewestOfPeriod(keys, i)
  {
    if IsHead(keys, i) {
      forall j | 0 <= j < i ensures keys[j] != keys[i] {
        assert keys[i] <= keys[i - 1] <= keys[j];
      }
    } else {
      assert keys[i - 1] == keys[i];
    }
  }

  lemma {:induction false} HeadsCountKeys(keys: seq<int>, i: nat)
    requires NeverRises(keys) && i <= |keys|
    ensures Heads(keys, i) == |KeysBefore(keys, i)|
  {
    if i > 0 {
      HeadsCountKeys(keys, i - 1);
      HeadIsNewest(keys, i - 1);
      OneMoreKey(keys, i - 1);
    }
  }

  lemma OneMoreKey(keys: seq<int>, i: nat)
    requires i < |keys|
    ensures KeysBefore(keys, i + 1) == KeysBefore(keys, i) + {keys[i]}
    ensures |KeysBefore(keys, i + 1)| == |KeysBefore(keys, i)| + (if NewestOfPeriod(keys, i) then 1 else 0)
  {
    var before := KeysBefore(keys, i);
    assert KeysBefore(keys, i + 1) == before + {keys[i]};
    if keys[i] in before {
      assert before + {keys[i]} == before;
    } else {
      assert forall j :: 0 <= j < i ==> keys[j] in before;
    }
  }

  /** With keys that follow time, a bucket with quota `q` takes the newest snapshot of each of the
      `q` newest distinct periods, and besides only the oldest snapshot, when fewer than `q`
      distinct periods came before it. */
  lemma SelectedMeansNewestPeriods(keys: seq<int>, quota: int, i: nat)
    requires NeverRises(keys) && i < |keys|
    ensures Selected(keys, quota, i) <==> OfNewestPeriods(keys, quota, i)
  {
    HeadIsNewest(keys, i);
    HeadsCountKeys(keys, i);
    if NewestOfPeriod(keys, i) {
      forall j | 0 <= j < |keys| ensures keys[j] > keys[i] <==> j < i {
        assert j < i ==> keys[i] <= keys[j];
      }
      assert NewerKeys(keys, i) == KeysBefore(keys, i);
    }
  }

  lemma PeriodKeysNeverRise(p: Period, s: seq<Snapshot>)
    requires p.Daily? || p.Monthly? || p.Yearly?
    requires Sorted(s)
    ensures NeverRises(Keys(p, s))
  {
    forall i, j | 0 <= i <= j < |s| ensures Keys(p, s)[j] <= Keys(p, s)[i] {
      assert i < j ==> NotNewer(s[j], s[i]);
      KeysFollowTime(s[j].createdAt, s[i].createdAt);
    }
  }

  /** The daily, monthly and yearly buckets on an arbitrary list of snapshots. */
  lemma PeriodBucket(p: Period, q: Quotas, snapshots: seq<Snapshot>, i: nat)
    requires p.Daily? || p.Monthly? || p.Yearly?
    requires i < |NewestFirst(snapshots)|
    ensures var s := NewestFirst(snapshots);
            SelectedBy(p, q, s, i) <==> OfNewestPeriods(Keys(p, s), QuotaFor(q, p), i)
  {
    var s := NewestFirst(snapshots);
    NewestFirstSorts(snapshots);
    PeriodKeysNeverRise(p, s);
    SelectedMeansNewestPeriods(Keys(p, s), QuotaFor(q, p), i);
  }

  lemma {:induction false} PositionsAreAllHeads(s: seq<Snapshot>, i: nat)
    requires i <= |s|
    ensures Heads(Keys(Last, s), i) == i
  {
    if i > 0 {
      PositionsAreAllHeads(s, i - 1);
    }
  }

  /** The `last` bucket takes exactly the newest `quota` snapshots. */
  lemma LastBucket(q: Quotas, s: seq<Snapshot>, i: nat)
    requires i < |s|
    ensures SelectedBy(Last, q, s, i) <==> q.last == -1 || i < q.last
  {
    PositionsAreAllHeads(s, i);
  }

  // ----- Which snapshots survive -----

  /** By position, period and quota alone, the snapshot at position `i` of a newest-first list
      survives the rotation. */
  ghost predicate Survives(q: Quotas, s: seq<Snapshot>, i: nat)
    requires i < |s|
  {
    || q.last == -1 || i < q.last
    || OfNewestPeriods(Keys(Daily, s), q.daily, i)
    || Selected(Keys(Weekly, s), q.weekly, i)
    || OfNewestPeriods(Keys(Monthly, s), q.monthly, i)
    || OfNewestPeriods(Keys(Yearly, s), q.yearly, i)
  }

  lemma KeptMeansSurvives(q: Quotas, snapshots: seq<Snapshot>, i: nat)
    requires i < |NewestFirst(snapshots)|
    ensures KeptAt(q, NewestFirst(snapshots), i) <==> Survives(q, NewestFirst(snapshots), i)
  {
    var s := NewestFirst(snapshots);
    LastBucket(q, s, i);
    PeriodBucket(Daily, q, snapshots, i);
    PeriodBucket(Monthly, q, snapshots, i);
    PeriodBucket(Yearly, q, snapshots, i);
    KeptBySome(q, s, i);
  }

  lemma KeptBySome(q: Quotas, s: seq<Snapshot>, i: nat)
    requires i < |s|
    ensures KeptAt(q, s, i) <==>
              || SelectedBy(Last, q, s, i) || SelectedBy(Daily, q, s, i) || SelectedBy(Weekly, q, s, i)
              || SelectedBy(Monthly, q, s, i) || SelectedBy(Yearly, q, s, i)
  {
    if KeptAt(q, s, i) {
      var p :| SelectedBy(p, q, s, i);
      match p {
        case Last | Daily | Weekly | Monthly | Yearly =>
      }
    }
  }

  lemma {:induction false} UnionHas(q: Quotas, s: seq<Snapshot>, i: nat, j: nat)
    requires i <= j < |s| && KeptAt(q, s, j)
    ensures s[j] in Union(q, s, i)
    decreases j - i
  {
    if i < j {
      UnionHas(q, s, i + 1, j);
    }
  }

  lemma {:induction false} UnionOnlyHas(q: Quotas, s: seq<Snapshot>, i: nat, x: Snapshot) returns (j: nat)
    requires i <= |s| && x in Union(q, s, i)
    ensures i <= j < |s| && s[j] == x && KeptAt(q, s, j)
    decreases |s| - i
  {
    if x in Union(q, s, i + 1) {
      j := UnionOnlyHas(q, s, i + 1, x);
    } else {
      j := i;
    }
  }

  ghost predicate NoRepeats(s: seq<Snapshot>) {
    forall i, j :: 0 <= i < j < |s| ==> s[i] != s[j]
  }

  lemma ListedOnce(s: seq<Snapshot>, values: set<Snapshot>)
    requires multiset(s) == multiset(values)
    ensures NoRepeats(s)
  {
    forall i, j | 0 <= i < j < |s| ensures s[i] != s[j] {
      if s[i] == s[j] {
        AppearsTwice(s, i, j);
      }
    }
  }

  /** Where a listing puts a snapshot, newest first, is a place that survives. */
  ghost predicate Spared(q: Quotas, order: seq<Snapshot>, x: Snapshot) {
    var s := NewestFirst(order);
    exists i :: 0 <= i < |s| && s[i] == x && Survives(q, s, i)
  }

  /** Of snapshots listed once each, in any order, exactly those are kept. */
  lemma KeptExactlyIfSpared(order: seq<Snapshot>, values: set<Snapshot>, q: Quotas, x: Snapshot)
    requires multiset(order) == multiset(values) && x in values
    ensures x in Prune(order, q) <==> Spared(q, order, x)
  {
    var s := NewestFirst(order);
    NewestFirstSorts(order);
    ListedOnce(s, values);
    assert x in multiset(s);
    var i :| 0 <= i < |s| && s[i] == x;
    KeptExactlyIfSurvives(order, q, i);
    assert forall j :: 0 <= j < |s| && s[j] == x ==> j == i;
  }

  /** A snapshot can be dropped by the very rotation that its making triggers: with room for one,
      a newer snapshot already there pushes it out. */
  lemma NewcomerDropped(newcomer: Snapshot, stored: Snapshot)
    requires Instant(newcomer.createdAt) < Instant(stored.createdAt)
    ensures var q := Quotas(1, 0, 0, 0, 0);
            KeepsSomething(q) && Prune([newcomer, stored], q) == Prune([stored, newcomer], q) == [stored]
  {
    var q := Quotas(1, 0, 0, 0, 0);
    var s := [stored, newcomer];
    NewestFirstOfSorted(s);
    assert NewestFirst([newcomer, stored]) == s by {
      assert NewestFirst([newcomer]) == [newcomer] && NewestFirst([stored]) == [stored];
    }
    var next := TurnAll(Fresh(q), s[0], false);
    assert Takes(Fresh(q)[0], s[0], false);
    assert s[1..] == [newcomer] && [newcomer][1..] == [];
    assert !AnyTakes(next, newcomer, true);
    assert Retain(next, [newcomer]) == [];
  }

  /** Raising the quotas does not bring back what smaller ones dropped: with room for one, then for
      three, the first of three snapshots is gone. */
  lemma RaisedTooLate(first: Snapshot, second: Snapshot, third: Snapshot)
    requires StrictlySorted([third, second, first])
    ensures var q, larger := Quotas(1, 0, 0, 0, 0), Quotas(3, 0, 0, 0, 0);
            && Prune([third] + Prune([second, first], q), larger) == [third, second]
            && Prune([third, second, first], larger) == [third, second, first]
  {
    var a, b, c := [second, first], [third, second], [third, second, first];
    assert c[..2] == b && c[1..] == a && a[..1] == [second] && [third] + a[..1] == b;
    SortedIfStrict(c);
    SortedParts(c, 1, 3);
    SortedParts(c, 0, 2);
    assert c[0..2] == b && c[1..3] == a;
    LastAloneKeeps(a, 1);
    LastAloneKeeps(b, 3);
    LastAloneKeeps(c, 3);
  }

  lemma SortedParts(s: seq<Snapshot>, i: nat, j: nat)
    requires Sorted(s) && i <= j <= |s|
    ensures Sorted(s[i..j])
  {
  }

  /** With all other quotas closed, `last` alone keeps the newest snapshots. */
  lemma LastAloneKeeps(s: seq<Snapshot>, last: nat)
    requires Sorted(s)
    ensures Prune(s, Quotas(last, 0, 0, 0, 0)) == if last < |s| then s[..last] else s
  {
    NewestFirstOfSorted(s);
    LastAloneRetains(Fresh(Quotas(last, 0, 0, 0, 0)), s);
  }

  lemma {:induction false} LastAloneRetains(bs: seq<Bucket>, s: seq<Snapshot>)
    requires bs != [] && bs[0].period.Last? && bs[0].counter >= 0
    requires forall k :: 0 < k < |bs| ==> !Open(bs[k])
    ensures Retain(bs, s) == if bs[0].counter < |s| then s[..bs[0].counter] else s
    decreases |s|
  {
    if s != [] {
      LastAloneRetains(TurnAll(bs, s[0], |s| == 1), s[1..]);
      assert bs[0].counter > 0 ==> Takes(bs[0], s[0], |s| == 1);
    }
  }

  lemma UnionMembers(q: Quotas, s: seq<Snapshot>, i: nat)
    requires i < |s| && NoRepeats(s)
    ensures s[i] in Union(q, s, 0) <==> KeptAt(q, s, i)
  {
    if s[i] in Union(q, s, 0) {
      var j := UnionOnlyHas(q, s, 0, s[i]);
      assert j == i;
    } else if KeptAt(q, s, i) {
      UnionHas(q, s, 0, i);
    }
  }

  /** Of a list without repetitions, exactly the snapshots that `Survives` describes are kept. */
  lemma KeptExactlyIfSurvives(snapshots: seq<Snapshot>, q: Quotas, i: nat)
    requires i < |NewestFirst(snapshots)| && NoRepeats(NewestFirst(snapshots))
    ensures var s := NewestFirst(snapshots); s[i] in Prune(snapshots, q) <==> Survives(q, s, i)
  {
    var s := NewestFirst(snapshots);
    PruneIsUnion(snapshots, q);
    UnionMembers(q, s, i);
    KeptMeansSurvives(q, snapshots, i);
  }

  // ----- The weekly bucket -----

  function Weeks(s: seq<Snapshot>): (r: seq<int>)
    ensures |r| == |s| && forall i :: 0 <= i < |s| ==> r[i] == WeekIndex(s[i].createdAt)
  {
    seq(|s|, i requires 0 <= i < |s| => WeekIndex(s[i].createdAt))
  }

  /** Two keyings agree on whether neighbours, the oldest snapshot aside, share a period. */
  ghost predicate SameRuns(a: seq<int>, b: seq<int>) {
    |a| == |b| && forall i :: 0 < i < |a| - 1 ==> (a[i] == a[i - 1] <==> b[i] == b[i - 1])
  }

  lemma {:induction false} SameRunsSameHeads(a: seq<int>, b: seq<int>, i: nat)
    requires SameRuns(a, b) && i < |a|
    ensures Heads(a, i) == Heads(b, i)
  {
    if i > 0 {
      SameRunsSameHeads(a, b, i - 1);
      assert i > 1 ==> (a[i - 1] == a[i - 2] <==> b[i - 1] == b[i - 2]);
    }
  }

  /** Two keyings select alike under every quota exactly when they have the same runs. */
  lemma SelectionsAgree(a: seq<int>, b: seq<int>)
    requires |a| == |b|
    ensures (forall quota, i: nat | i < |a| :: Selected(a, quota, i) <==> Selected(b, quota, i)) <==> SameRuns(a, b)
  {
    if SameRuns(a, b) {
      forall quota, i: nat | i < |a| ensures Selected(a, quota, i) <==> Selected(b, quota, i) {
        SameRunsSameHeads(a, b, i);
      }
    }
    if forall quota, i: nat | i < |a| :: Selected(a, quota, i) <==> Selected(b, quota, i) {
      forall i | 0 < i < |a| - 1 ensures a[i] == a[i - 1] <==> b[i] == b[i - 1] {
        assert Selected(a, -1, i) <==> Selected(b, -1, i);
      }
    }
  }

  lemma WeeksNeverRise(s: seq<Snapshot>)
    requires Sorted(s)
    ensures NeverRises(Weeks(s))
  {
    forall i, j | 0 <= i <= j < |s| ensures Weeks(s)[j] <= Weeks(s)[i] {
      assert i < j ==> NotNewer(s[j], s[i]);
      LaterWeek(s[j].createdAt, s[i].createdAt);
    }
  }

  lemma LaterWeek(a: DateTime, b: DateTime)
    requires Instant(a) <= Instant(b)
    ensures WeekIndex(a) <= WeekIndex(b)
  {
    assert Ordinal(a) <= Ordinal(b);
  }

  /** The weekly bucket keeps the newest snapshot of each of the newest ISO weeks, under every
      quota, exactly when neighbouring snapshots share the weekly key just when they share an ISO
      week. That fails around a turn of the year; see `WeeklyKeyMergesWeeks`. */
  lemma WeeklyBucket(s: seq<Snapshot>)
    requires Sorted(s)
    ensures (forall quota, i: nat | i < |s| ::
               Selected(Keys(Weekly, s), quota, i) <==> OfNewestPeriods(Weeks(s), quota, i))
            <==> SameRuns(Keys(Weekly, s), Weeks(s))
  {
    WeeksNeverRise(s);
    forall quota, i: nat | i < |s|
      ensures Selected(Weeks(s), quota, i) <==> OfNewestPeriods(Weeks(s), quota, i)
    {
      SelectedMeansNewestPeriods(Weeks(s), quota, i);
    }
    SelectionsAgree(Keys(Weekly, s), Weeks(s));
  }

  /** Such a list: the snapshots of 30 December 2024 and 1 January 2025 share a week, and the bucket
      takes both. */
  lemma WeeklyPromiseFails(s: seq<Snapshot>)
    requires |s| == 3 && s[0].createdAt == Civil(2025, 1, 1, 0)
    requires s[1].createdAt == Civil(2024, 12, 30, 0) && s[2].createdAt == Civil(2024, 12, 20, 0)
    ensures Sorted(s) && !SameRuns(Keys(Weekly, s), Weeks(s))
    ensures Selected(Keys(Weekly, s), 2, 0) && Selected(Keys(Weekly, s), 2, 1) && Weeks(s)[0] == Weeks(s)[1]
  {
    WeeklyKeySplitsWeek(s[1].createdAt, s[0].createdAt);
    WeeklyKeyFalls(s[2].createdAt, s[1].createdAt);
    SplitWeekFails(s);
  }

  lemma SortedThree(s: seq<Snapshot>)
    requires |s| == 3 && NotNewer(s[1], s[0]) && NotNewer(s[2], s[1])
    ensures Sorted(s)
  {
  }

  lemma SplitWeekFails(s: seq<Snapshot>)
    requires |s| == 3 && WeeklyKey(s[1].createdAt) != WeeklyKey(s[0].createdAt)
    requires WeekIndex(s[1].createdAt) == WeekIndex(s[0].createdAt)
    requires NotNewer(s[1], s[0]) && NotNewer(s[2], s[1])
    ensures Sorted(s)
    ensures !SameRuns(Keys(Weekly, s), Weeks(s)) && Weeks(s)[0] == Weeks(s)[1]
    ensures Selected(Keys(Weekly, s), 2, 0) && Selected(Keys(Weekly, s), 2, 1)
  {
    var keys := Keys(Weekly, s);
    SortedThree(s);
    assert keys[1] != keys[0] && Weeks(s)[1] == Weeks(s)[0];
    assert Heads(keys, 0) == 0 && Heads(keys, 1) == 1;
  }
}
