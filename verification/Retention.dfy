/** Rotation of automatic snapshots: five quota buckets run together over the snapshots,
    newest first, and a snapshot stays if any bucket takes it. */
module Retention {
  import opened Calendar

  datatype Reason = EXPLICIT | AUTO | PRE_RESTORE

  datatype Snapshot = Snapshot(id: string, serviceName: string, createdAt: DateTime, reason: Reason)

  datatype Period = Last | Daily | Weekly | Monthly | Yearly

  /** 0 keeps nothing, -1 is unlimited. */
  datatype Quotas = Quotas(last: int, daily: int, weekly: int, monthly: int, yearly: int)

  /** What a bucket's rotation function computes from a snapshot's date and position. */
  function RotationKey(p: Period, d: DateTime, index: int): int {
    match p
    case Last => index
    case Daily => DailyKey(d)
    case Weekly => WeeklyKey(d)
    case Monthly => MonthlyKey(d)
    case Yearly => YearlyKey(d)
  }

  // ----- Newest first -----

  function InsertNewest(x: Snapshot, s: seq<Snapshot>): seq<Snapshot> {
    if s != [] && Instant(s[0].createdAt) > Instant(x.createdAt)
    then [s[0]] + InsertNewest(x, s[1..])
    else [x] + s
  }

  /** Stable sort by creation time, newest first. */
  function NewestFirst(s: seq<Snapshot>): seq<Snapshot> {
    if s == [] then [] else InsertNewest(s[0], NewestFirst(s[1..]))
  }

  predicate NotNewer(a: Snapshot, b: Snapshot) {
    Instant(a.createdAt) <= Instant(b.createdAt)
  }

  ghost predicate Sorted(s: seq<Snapshot>) {
    forall i, j :: 0 <= i < j < |s| ==> NotNewer(s[j], s[i])
  }

  // ----- Buckets -----

  /** A bucket as a value. `last` is the key seen last, -1 before the first; the bucket that
      counts positions never sees a key twice and so has no use for it. */
  datatype Bucket = Bucket(period: Period, counter: int, last: int)

  predicate Open(b: Bucket) { b.counter > 0 || b.counter == -1 }

  predicate Takes(b: Bucket, snap: Snapshot, oldest: bool) {
    Open(b) && (oldest || b.period.Last? || RotationKey(b.period, snap.createdAt, 0) != b.last)
  }

  function Turn(b: Bucket, snap: Snapshot, oldest: bool): Bucket {
    if Takes(b, snap, oldest) then
      Bucket(b.period,
             if b.counter > 0 then b.counter - 1 else b.counter,
             if b.period.Last? then b.last else RotationKey(b.period, snap.createdAt, 0))
    else b
  }

  function TurnAll(bs: seq<Bucket>, snap: Snapshot, oldest: bool): (r: seq<Bucket>)
    ensures |r| == |bs| && forall k :: 0 <= k < |bs| ==> r[k] == Turn(bs[k], snap, oldest)
  {
    seq(|bs|, k requires 0 <= k < |bs| => Turn(bs[k], snap, oldest))
  }

  predicate AnyTakes(bs: seq<Bucket>, snap: Snapshot, oldest: bool) {
    exists k :: 0 <= k < |bs| && Takes(bs[k], snap, oldest)
  }

  /** The snapshots of a newest-first list that buckets in state `bs` keep. */
  function Retain(bs: seq<Bucket>, s: seq<Snapshot>): seq<Snapshot>
    decreases |s|
  {
    if s == [] then []
    else
      var rest := Retain(TurnAll(bs, s[0], |s| == 1), s[1..]);
      if AnyTakes(bs, s[0], |s| == 1) then [s[0]] + rest else rest
  }

  function Fresh(q: Quotas): seq<Bucket> {
    [Bucket(Last, q.last, -1), Bucket(Daily, q.daily, -1), Bucket(Weekly, q.weekly, -1),
     Bucket(Monthly, q.monthly, -1), Bucket(Yearly, q.yearly, -1)]
  }

  /** The snapshots the rotation keeps, newest first. */
  function Prune(snapshots: seq<Snapshot>, q: Quotas): seq<Snapshot> {
    Retain(Fresh(q), NewestFirst(snapshots))
  }

  // ----- The rotation as it runs -----

  class RotationBucket {
    const period: Period
    var counter: int
    var last: int

    constructor (period: Period, counter: int)
      ensures this.period == period && this.counter == counter && last == -1
    {
      this.period := period;
      this.counter := counter;
      last := -1;
    }

    function RotationLambda(d: DateTime, index: int): int { RotationKey(period, d, index) }

    ghost function Value(): Bucket
      reads this
    {
      Bucket(period, counter, if period.Last? then -1 else last)
    }

    /** One round of the inner loop: take the snapshot or let it pass. */
    method Offer(snap: Snapshot, index: nat, oldest: bool) returns (taken: bool)
      requires period.Last? ==> last < index
      modifies this
      ensures taken == Takes(old(Value()), snap, oldest)
      ensures Value() == Turn(old(Value()), snap, oldest)
      ensures period.Last? ==> last <= index
    {
      taken := false;
      if counter > 0 || counter == -1 {
        var val := RotationLambda(snap.createdAt, index);
        if val != last || oldest {
          last := val;
          if counter > 0 {
            counter := counter - 1;
          }
          taken := true;
        }
      }
    }
  }

  ghost function Values(buckets: seq<RotationBucket>): (r: seq<Bucket>)
    reads buckets
    ensures |r| == |buckets| && forall k :: 0 <= k < |buckets| ==> r[k] == buckets[k].Value()
  {
    seq(|buckets|, k requires 0 <= k < |buckets| reads buckets => buckets[k].Value())
  }

  ghost predicate Distinct(buckets: seq<RotationBucket>) {
    forall j, k :: 0 <= j < k < |buckets| ==> buckets[j] != buckets[k]
  }

  /** The inner loop: offer one snapshot to every bucket. */
  method OfferAll(buckets: seq<RotationBucket>, snap: Snapshot, index: nat, oldest: bool) returns (keepSnap: bool)
    requires Distinct(buckets)
    requires forall k :: 0 <= k < |buckets| && buckets[k].period.Last? ==> buckets[k].last < index
    modifies buckets
    ensures keepSnap == AnyTakes(old(Values(buckets)), snap, oldest)
    ensures Values(buckets) == TurnAll(old(Values(buckets)), snap, oldest)
    ensures forall k :: 0 <= k < |buckets| && buckets[k].period.Last? ==> buckets[k].last <= index
  {
    keepSnap := false;
    for j := 0 to |buckets|
      invariant keepSnap == exists k :: 0 <= k < j && Takes(old(Values(buckets))[k], snap, oldest)
      invariant forall k :: 0 <= k < j ==> buckets[k].Value() == Turn(old(Values(buckets))[k], snap, oldest)
      invariant forall k :: 0 <= k < j && buckets[k].period.Last? ==> buckets[k].last <= index
      invariant forall k :: j <= k < |buckets| ==> buckets[k].Value() == old(Values(buckets))[k]
      invariant forall k :: j <= k < |buckets| && buckets[k].period.Last? ==> buckets[k].last < index
    {
      var taken := buckets[j].Offer(snap, index, oldest);
      if taken {
        keepSnap := true;
      }
    }
  }

  method NewBuckets(quotas: Quotas) returns (buckets: seq<RotationBucket>)
    ensures Distinct(buckets) && fresh(buckets)
    ensures forall k :: 0 <= k < |buckets| ==> buckets[k].last == -1
    ensures Values(buckets) == Fresh(quotas)
  {
    var last := new RotationBucket(Last, quotas.last);
    var daily := new RotationBucket(Daily, quotas.daily);
    var weekly := new RotationBucket(Weekly, quotas.weekly);
    var monthly := new RotationBucket(Monthly, quotas.monthly);
    var yearly := new RotationBucket(Yearly, quotas.yearly);
    buckets := [last, daily, weekly, monthly, yearly];
  }

  /** The rotation as the code runs it: one pass over the sorted snapshots, with five mutable
      buckets. It computes `Prune`. */
  method PruneSnapsWithQuotas(snapshots: seq<Snapshot>, quotas: Quotas) returns (newSnaplist: seq<Snapshot>)
    ensures newSnaplist == Prune(snapshots, quotas)
  {
    var sortedSnaps := NewestFirst(snapshots);
    var buckets := NewBuckets(quotas);
    newSnaplist := [];
    for i := 0 to |sortedSnaps|
      invariant Distinct(buckets) && fresh(buckets)
      invariant forall k :: 0 <= k < |buckets| && buckets[k].period.Last? ==> buckets[k].last < i
      invariant newSnaplist + Retain(Values(buckets), sortedSnaps[i..]) == Prune(snapshots, quotas)
    {
      ghost var before := Values(buckets);
      var snap, oldest := sortedSnaps[i], i == |sortedSnaps| - 1;
      var keepSnap := OfferAll(buckets, snap, i, oldest);
      RetainStep(before, sortedSnaps, i);
      if keepSnap {
        newSnaplist := newSnaplist + [snap];
      }
    }
  }

  lemma RetainStep(bs: seq<Bucket>, s: seq<Snapshot>, i: nat)
    requires i < |s|
    ensures var rest := Retain(TurnAll(bs, s[i], i == |s| - 1), s[i + 1..]);
            forall done: seq<Snapshot> ::
              done + Retain(bs, s[i..])
              == (if AnyTakes(bs, s[i], i == |s| - 1) then done + [s[i]] + rest else done + rest)
  {
    assert s[i..][1..] == s[i + 1..];
    var rest := Retain(TurnAll(bs, s[i], i == |s| - 1), s[i + 1..]);
    forall done: seq<Snapshot>
      ensures done + ([s[i]] + rest) == done + [s[i]] + rest
    {
    }
  }
}
