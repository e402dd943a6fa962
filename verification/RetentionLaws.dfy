/** Laws of the rotation that no single branch shows: pruning is idempotent, monotone in the
    quotas, and pruning after every new snapshot equals pruning once at the end. */
module RetentionLaws {
  import opened Calendar
  import opened Retention

  // ----- Sorting -----

  /** No snapshot of `s` is newer than `x`. */
  ghost predicate OlderThan(s: seq<Snapshot>, x: Snapshot) {
    forall o :: o in s ==> NotNewer(o, x)
  }

  lemma SortedCons(x: Snapshot, s: seq<Snapshot>)
    requires Sorted(s) && OlderThan(s, x)
    ensures Sorted([x] + s)
  {
    var t := [x] + s;
    forall i, j | 0 <= i < j < |t| ensures NotNewer(t[j], t[i]) {
      assert t[j] == s[j - 1];
      assert i > 0 ==> t[i] == s[i - 1];
    }
  }

  lemma SortedTail(s: seq<Snapshot>)
    requires Sorted(s) && s != []
    ensures Sorted(s[1..]) && OlderThan(s[1..], s[0])
  {
    forall o | o in s[1..] ensures NotNewer(o, s[0]) {
      var j :| 0 <= j < |s| - 1 && s[1..][j] == o;
      assert s[j + 1] == o;
    }
  }

  lemma SameMembers(s: seq<Snapshot>, t: seq<Snapshot>)
    requires multiset(s) == multiset(t)
    ensures forall x :: x in s <==> x in t
  {
    forall x ensures x in s <==> x in t {
      assert x in multiset(s) <==> x in multiset(t);
    }
  }

  lemma {:induction false} InsertKeepsMembers(x: Snapshot, s: seq<Snapshot>)
    ensures multiset(InsertNewest(x, s)) == multiset(s) + multiset{x}
  {
    if s != [] && Instant(s[0].createdAt) > Instant(x.createdAt) {
      InsertKeepsMembers(x, s[1..]);
      assert s == [s[0]] + s[1..];
    }
  }

  lemma InsertMembers(x: Snapshot, s: seq<Snapshot>)
    ensures forall y :: y in InsertNewest(x, s) <==> y == x || y in s
  {
    InsertKeepsMembers(x, s);
    forall y ensures y in InsertNewest(x, s) <==> y == x || y in s {
      assert y in multiset(InsertNewest(x, s)) <==> y in multiset(s) + multiset{x};
    }
  }

  lemma {:induction false} InsertKeepsSorted(x: Snapshot, s: seq<Snapshot>)
    requires Sorted(s)
    ensures Sorted(InsertNewest(x, s))
  {
    if s == [] {
    } else {
      SortedTail(s);
      if Instant(s[0].createdAt) > Instant(x.createdAt) {
        InsertKeepsSorted(x, s[1..]);
        InsertMembers(x, s[1..]);
        SortedCons(s[0], InsertNewest(x, s[1..]));
      } else {
        forall o | o in s ensures NotNewer(o, x) {
          assert o == s[0] || o in s[1..];
        }
        SortedCons(x, s);
      }
    }
  }

  /** The list is sorted, newest first, and holds the same snapshots. */
  lemma {:induction false} NewestFirstSorts(s: seq<Snapshot>)
    ensures Sorted(NewestFirst(s))
    ensures multiset(NewestFirst(s)) == multiset(s)
  {
    if s != [] {
      NewestFirstSorts(s[1..]);
      InsertKeepsSorted(s[0], NewestFirst(s[1..]));
      InsertKeepsMembers(s[0], NewestFirst(s[1..]));
      assert s == [s[0]] + s[1..];
    }
  }

  /** A list that is sorted already, ties included, is left as it is. */
  lemma {:induction false} NewestFirstOfSorted(s: seq<Snapshot>)
    requires Sorted(s)
    ensures NewestFirst(s) == s
  {
    if s != [] {
      SortedTail(s);
      NewestFirstOfSorted(s[1..]);
      assert |s| > 1 ==> NotNewer(s[1], s[0]);
    }
  }

  /** Sorting is stable: snapshots at least as new as the whole of `old`, listed before it, come
      out as a block in front. */
  lemma {:induction false} NewestFirstOfNewer(newer: seq<Snapshot>, older: seq<Snapshot>)
    requires forall n :: n in newer ==> OlderThan(older, n)
    ensures NewestFirst(newer + older) == NewestFirst(newer) + NewestFirst(older)
  {
    if newer == [] {
      assert newer + older == older;
    } else {
      assert newer[0] in newer;
      forall n | n in newer[1..] ensures OlderThan(older, n) {
        assert n in newer;
      }
      NewestFirstOfNewer(newer[1..], older);
      assert (newer + older)[1..] == newer[1..] + older;
      NewestFirstSorts(older);
      SameMembers(NewestFirst(older), older);
      InsertIntoFront(newer[0], NewestFirst(newer[1..]), NewestFirst(older));
    }
  }

  lemma {:induction false} InsertIntoFront(x: Snapshot, a: seq<Snapshot>, b: seq<Snapshot>)
    requires OlderThan(b, x)
    ensures InsertNewest(x, a + b) == InsertNewest(x, a) + b
  {
    if a == [] {
      assert a + b == b;
      assert b != [] ==> b[0] in b;
    } else {
      assert (a + b)[0] == a[0] && (a + b)[1..] == a[1..] + b;
      if Instant(a[0].createdAt) > Instant(x.createdAt) {
        InsertIntoFront(x, a[1..], b);
      }
    }
  }

  ghost predicate DistinctTimes(s: multiset<Snapshot>) {
    forall a, b :: a in s && b in s && Instant(a.createdAt) == Instant(b.createdAt) ==> a == b
  }

  lemma SameHead(s: seq<Snapshot>, t: seq<Snapshot>)
    requires Sorted(s) && Sorted(t) && multiset(s) == multiset(t)
    requires DistinctTimes(multiset(s)) && s != []
    ensures t != [] && s[0] == t[0]
  {
    assert s[0] in multiset(t);
    var i :| 0 <= i < |t| && t[i] == s[0];
    assert t[0] in multiset(s);
    var j :| 0 <= j < |s| && s[j] == t[0];
    assert i > 0 ==> NotNewer(t[i], t[0]);
    assert j > 0 ==> NotNewer(s[j], s[0]);
  }

  /** With distinct creation times the order in which the cache lists the snapshots is immaterial. */
  lemma {:induction false} SortedUnique(s: seq<Snapshot>, t: seq<Snapshot>)
    requires Sorted(s) && Sorted(t) && multiset(s) == multiset(t)
    requires DistinctTimes(multiset(s))
    ensures s == t
  {
    if s == [] {
      assert |multiset(t)| == 0;
    } else {
      SameHead(s, t);
      TailOfMultiset(s);
      TailOfMultiset(t);
      SortedUnique(s[1..], t[1..]);
    }
  }

  lemma TailOfMultiset(s: seq<Snapshot>)
    requires s != []
    ensures multiset(s[1..]) == multiset(s) - multiset{s[0]}
  {
    assert s == [s[0]] + s[1..];
  }

  lemma PruneIgnoresOrder(a: seq<Snapshot>, b: seq<Snapshot>, q: Quotas)
    requires multiset(a) == multiset(b) && DistinctTimes(multiset(a))
    ensures Prune(a, q) == Prune(b, q)
  {
    NewestFirstSorts(a);
    NewestFirstSorts(b);
    SortedUnique(NewestFirst(a), NewestFirst(b));
  }

  // ----- Subsequences -----

  /** `a` arises from `b` by leaving elements out. */
  ghost predicate IsSubsequence(a: seq<Snapshot>, b: seq<Snapshot>)
    decreases |b|
  {
    if b == [] then a == []
    else (a != [] && a[0] == b[0] && IsSubsequence(a[1..], b[1..])) || IsSubsequence(a, b[1..])
  }

  lemma {:induction false} SubsequenceMembers(a: seq<Snapshot>, b: seq<Snapshot>)
    requires IsSubsequence(a, b)
    ensures multiset(a) <= multiset(b)
    decreases |b|
  {
    if b != [] {
      assert b == [b[0]] + b[1..];
      if a != [] && a[0] == b[0] && IsSubsequence(a[1..], b[1..]) {
        assert a == [a[0]] + a[1..];
        SubsequenceMembers(a[1..], b[1..]);
      } else {
        SubsequenceMembers(a, b[1..]);
      }
    }
  }

  lemma {:induction false} SubsequenceSorted(a: seq<Snapshot>, b: seq<Snapshot>)
    requires IsSubsequence(a, b) && Sorted(b)
    ensures Sorted(a)
    decreases |b|
  {
    if b != [] {
      if a != [] && a[0] == b[0] && IsSubsequence(a[1..], b[1..]) {
        SubsequenceSorted(a[1..], b[1..]);
        SubsequenceMembers(a[1..], b[1..]);
        forall k | 0 < k < |a| ensures NotNewer(a[k], a[0]) {
          assert a[1..][k - 1] in multiset(a[1..]);
          assert a[k] in multiset(b[1..]);
        }
      } else {
        SubsequenceSorted(a, b[1..]);
      }
    }
  }

  // ----- One bucket lagging behind another -----

  predicate AtMost(c: int, d: int) { d == -1 || (c != -1 && c <= d) }

  predicate Below(c: int, d: int) { d == -1 || (c != -1 && c < d) }

  /** `b` can never again take a snapshot that `a` lets pass: it is closed, or has no more quota
      left and has seen the same key, or `a` has seen none yet and has quota to spare. */
  predicate Behind(b: Bucket, a: Bucket) {
    b.period == a.period &&
    (|| !Open(b)
     || (AtMost(b.counter, a.counter) && b.last == a.last)
     || (Below(b.counter, a.counter) && a.last == -1))
  }

  ghost predicate AllBehind(bs: seq<Bucket>, lead: seq<Bucket>) {
    |bs| == |lead| && forall k :: 0 <= k < |bs| ==> Behind(bs[k], lead[k])
  }

  lemma TurnBehind(b: Bucket, a: Bucket, snap: Snapshot, oldest: bool)
    requires Behind(b, a)
    ensures Takes(b, snap, oldest) ==> Takes(a, snap, oldest)
    ensures Behind(Turn(b, snap, oldest), Turn(a, snap, oldest))
  {
    KeysPositive(snap.createdAt);
  }

  lemma TurnAllBehind(bs: seq<Bucket>, lead: seq<Bucket>, snap: Snapshot, oldest: bool)
    requires AllBehind(bs, lead)
    ensures AnyTakes(bs, snap, oldest) ==> AnyTakes(lead, snap, oldest)
    ensures AllBehind(TurnAll(bs, snap, oldest), TurnAll(lead, snap, oldest))
  {
    forall k | 0 <= k < |bs|
      ensures Takes(bs[k], snap, oldest) ==> Takes(lead[k], snap, oldest)
      ensures Behind(Turn(bs[k], snap, oldest), Turn(lead[k], snap, oldest))
    {
      TurnBehind(bs[k], lead[k], snap, oldest);
    }
  }

  lemma TurnAllIdle(bs: seq<Bucket>, snap: Snapshot, oldest: bool)
    requires !AnyTakes(bs, snap, oldest)
    ensures TurnAll(bs, snap, oldest) == bs
  {
  }

  ghost predicate AllClosed(bs: seq<Bucket>) {
    forall k :: 0 <= k < |bs| ==> !Open(bs[k])
  }

  /** Closed buckets keep nothing, and any open bucket keeps something: at the latest the oldest. */
  lemma {:induction false} EmptyOnlyWhenClosed(bs: seq<Bucket>, s: seq<Snapshot>)
    ensures Retain(bs, s) == [] <==> s == [] || AllClosed(bs)
    decreases |s|
  {
    if s != [] {
      EmptyOnlyWhenClosed(TurnAll(bs, s[0], |s| == 1), s[1..]);
      if !AnyTakes(bs, s[0], |s| == 1) {
        TurnAllIdle(bs, s[0], |s| == 1);
        if |s| == 1 {
          assert forall k :: 0 <= k < |bs| ==> !Takes(bs[k], s[0], true);
        }
      }
    }
  }

  lemma {:induction false} RetainIsSubsequence(bs: seq<Bucket>, lead: seq<Bucket>, s: seq<Snapshot>)
    requires AllBehind(bs, lead)
    ensures IsSubsequence(Retain(bs, s), Retain(lead, s))
    decreases |s|
  {
    if s != [] {
      var oldest := |s| == 1;
      TurnAllBehind(bs, lead, s[0], oldest);
      RetainIsSubsequence(TurnAll(bs, s[0], oldest), TurnAll(lead, s[0], oldest), s[1..]);
      var a, b := Retain(bs, s), Retain(lead, s);
      if AnyTakes(lead, s[0], oldest) {
        assert b[1..] == Retain(TurnAll(lead, s[0], oldest), s[1..]);
        if AnyTakes(bs, s[0], oldest) {
          assert a[1..] == Retain(TurnAll(bs, s[0], oldest), s[1..]);
        }
      }
    }
  }

  // ----- Leaving out what would be dropped -----

  /** `mid` arises from `s` by leaving out snapshots that buckets in state `bs` drop from `s`. */
  ghost predicate Thinned(bs: seq<Bucket>, mid: seq<Snapshot>, s: seq<Snapshot>)
    decreases |s|
  {
    if s == [] then mid == []
    else
      var next := TurnAll(bs, s[0], |s| == 1);
      || (mid != [] && mid[0] == s[0] && Thinned(next, mid[1..], s[1..]))
      || (!AnyTakes(bs, s[0], |s| == 1) && Thinned(next, mid, s[1..]))
  }

  /** Leaving out any snapshots that would be dropped anyway does not change what is kept, although
      it may make another snapshot the oldest. */
  lemma {:induction false} ThinnedPrunesAlike(bs: seq<Bucket>, mid: seq<Snapshot>, s: seq<Snapshot>)
    requires Thinned(bs, mid, s)
    ensures Retain(bs, mid) == Retain(bs, s)
    decreases |s|
  {
    if s != [] {
      var oldest := |s| == 1;
      var next := TurnAll(bs, s[0], oldest);
      if mid != [] && mid[0] == s[0] && Thinned(next, mid[1..], s[1..]) {
        ThinnedPrunesAlike(next, mid[1..], s[1..]);
        if |mid| == 1 && !oldest {
          EmptyOnlyWhenClosed(next, s[1..]);
          HeadAlone(bs, s);
        }
      } else {
        ThinnedPrunesAlike(next, mid, s[1..]);
        TurnAllIdle(bs, s[0], oldest);
      }
    }
  }

  /** The case in which everything after the head is left out, so that the head becomes oldest. */
  lemma HeadAlone(bs: seq<Bucket>, s: seq<Snapshot>)
    requires |s| > 1 && AllClosed(TurnAll(bs, s[0], false))
    ensures AnyTakes(bs, s[0], true) == AnyTakes(bs, s[0], false)
  {
    var next := TurnAll(bs, s[0], false);
    forall k | 0 <= k < |bs| ensures Takes(bs[k], s[0], true) == Takes(bs[k], s[0], false) {
      assert !Open(next[k]);
    }
  }

  lemma {:induction false} RetainIsThinned(bs: seq<Bucket>, lead: seq<Bucket>, s: seq<Snapshot>)
    requires AllBehind(bs, lead)
    ensures Thinned(bs, Retain(lead, s), s)
    decreases |s|
  {
    if s != [] {
      var oldest := |s| == 1;
      TurnAllBehind(bs, lead, s[0], oldest);
      RetainIsThinned(TurnAll(bs, s[0], oldest), TurnAll(lead, s[0], oldest), s[1..]);
      if AnyTakes(lead, s[0], oldest) {
        assert Retain(lead, s)[1..] == Retain(TurnAll(lead, s[0], oldest), s[1..]);
      }
    }
  }

  /** What one set of buckets drops, buckets lagging behind them do not miss. */
  lemma Absorb(bs: seq<Bucket>, lead: seq<Bucket>, s: seq<Snapshot>)
    requires AllBehind(bs, lead)
    ensures Retain(bs, Retain(lead, s)) == Retain(bs, s)
  {
    RetainIsThinned(bs, lead, s);
    ThinnedPrunesAlike(bs, Retain(lead, s), s);
  }

  lemma AppearsTwice(a: seq<Snapshot>, i: nat, j: nat)
    requires i < j < |a| && a[i] == a[j]
    ensures multiset(a)[a[i]] >= 2
  {
    assert a == a[..j] + [a[j]] + a[j + 1..];
    assert a[i] in a[..j];
  }

  ghost predicate StrictlySorted(s: seq<Snapshot>) {
    forall i, j :: 0 <= i < j < |s| ==> Instant(s[j].createdAt) < Instant(s[i].createdAt)
  }

  lemma TailOfStrict(s: seq<Snapshot>)
    requires StrictlySorted(s) && s != []
    ensures StrictlySorted(s[1..])
    ensures forall o :: o in s[1..] ==> Instant(o.createdAt) < Instant(s[0].createdAt)
  {
    forall o | o in s[1..] ensures Instant(o.createdAt) < Instant(s[0].createdAt) {
      var k :| 0 <= k < |s| - 1 && s[1..][k] == o;
      assert s[k + 1] == o;
    }
  }

  /** `kept` lies within `mid`, and `mid` within `s`. */
  ghost predicate Between(kept: seq<Snapshot>, mid: seq<Snapshot>, s: seq<Snapshot>) {
    (forall x :: x in kept ==> x in mid) && (forall x :: x in mid ==> x in s)
  }

  lemma HeadOrTail(s: seq<Snapshot>)
    requires s != []
    ensures s[0] in s && forall x :: x in s <==> x == s[0] || x in s[1..]
  {
    assert s == [s[0]] + s[1..];
  }

  lemma {:induction false} BetweenIsThinned(bs: seq<Bucket>, mid: seq<Snapshot>, s: seq<Snapshot>)
    requires StrictlySorted(mid) && StrictlySorted(s) && Between(Retain(bs, s), mid, s)
    ensures Thinned(bs, mid, s)
    decreases |s|
  {
    if s == [] {
      if mid != [] {
        HeadOrTail(mid);
      }
    } else {
      TailOfStrict(s);
      if mid != [] && mid[0] == s[0] {
        TailOfStrict(mid);
        HeadKept(bs, mid, s);
        BetweenIsThinned(TurnAll(bs, s[0], |s| == 1), mid[1..], s[1..]);
      } else {
        HeadLeftOut(bs, mid, s);
        BetweenIsThinned(TurnAll(bs, s[0], |s| == 1), mid, s[1..]);
      }
    }
  }

  lemma HeadKept(bs: seq<Bucket>, mid: seq<Snapshot>, s: seq<Snapshot>)
    requires StrictlySorted(mid) && StrictlySorted(s) && Between(Retain(bs, s), mid, s)
    requires s != [] && mid != [] && mid[0] == s[0]
    ensures Between(Retain(TurnAll(bs, s[0], |s| == 1), s[1..]), mid[1..], s[1..])
  {
    var rest := Retain(TurnAll(bs, s[0], |s| == 1), s[1..]);
    TailOfStrict(s);
    TailOfStrict(mid);
    HeadOrTail(s);
    HeadOrTail(mid);
    forall x | x in rest ensures x in mid[1..] {
      RetainMembers(TurnAll(bs, s[0], |s| == 1), s[1..]);
      assert x in Retain(bs, s);
    }
  }

  lemma HeadLeftOut(bs: seq<Bucket>, mid: seq<Snapshot>, s: seq<Snapshot>)
    requires StrictlySorted(mid) && StrictlySorted(s) && Between(Retain(bs, s), mid, s)
    requires s != [] && !(mid != [] && mid[0] == s[0])
    ensures !AnyTakes(bs, s[0], |s| == 1)
    ensures Between(Retain(TurnAll(bs, s[0], |s| == 1), s[1..]), mid, s[1..])
  {
    TailOfStrict(s);
    HeadOrTail(s);
    forall x | x in mid ensures x in s[1..] {
      TailOfStrict(mid);
      HeadOrTail(mid);
    }
    assert s[0] !in s[1..];
    RetainMembers(bs, s);
  }

  lemma {:induction false} RetainMembers(bs: seq<Bucket>, s: seq<Snapshot>)
    ensures forall x :: x in Retain(bs, s) ==> x in s
    ensures s != [] && AnyTakes(bs, s[0], |s| == 1) ==> s[0] in Retain(bs, s)
    decreases |s|
  {
    if s != [] {
      RetainMembers(TurnAll(bs, s[0], |s| == 1), s[1..]);
    }
  }

  /** For snapshots made one after another: any list between what pruning keeps and the whole prunes
      to the same. */
  lemma PruneOfBetween(mid: seq<Snapshot>, s: seq<Snapshot>, q: Quotas)
    requires StrictlySorted(mid) && StrictlySorted(s) && Between(Prune(s, q), mid, s)
    ensures Prune(mid, q) == Prune(s, q)
  {
    SortedIfStrict(mid);
    SortedIfStrict(s);
    NewestFirstOfSorted(mid);
    NewestFirstOfSorted(s);
    BetweenIsThinned(Fresh(q), mid, s);
    ThinnedPrunesAlike(Fresh(q), mid, s);
  }

  lemma SortedIfStrict(s: seq<Snapshot>)
    requires StrictlySorted(s)
    ensures Sorted(s)
  {
  }

  lemma {:induction false} AbsorbAfter(bs: seq<Bucket>, lead: seq<Bucket>, newer: seq<Snapshot>, s: seq<Snapshot>)
    requires AllBehind(bs, lead) && AllFresh(lead)
    ensures Retain(bs, newer + Retain(lead, s)) == Retain(bs, newer + s)
    decreases |newer|
  {
    if newer == [] {
      assert newer + Retain(lead, s) == Retain(lead, s) && newer + s == s;
      Absorb(bs, lead, s);
    } else if AllClosed(lead) {
      ClosedBehind(bs, lead);
      EmptyOnlyWhenClosed(bs, newer + Retain(lead, s));
      EmptyOnlyWhenClosed(bs, newer + s);
    } else {
      EmptyOnlyWhenClosed(lead, s);
      var oldest := |newer + s| == 1;
      AllStayBehindFresh(bs, lead, newer[0], oldest);
      AbsorbAfter(TurnAll(bs, newer[0], oldest), lead, newer[1..], s);
      RetainCons(bs, newer, s);
      RetainCons(bs, newer, Retain(lead, s));
    }
  }

  ghost predicate AllFresh(bs: seq<Bucket>) { forall k :: 0 <= k < |bs| ==> bs[k].last == -1 }

  lemma ClosedBehind(bs: seq<Bucket>, lead: seq<Bucket>)
    requires AllBehind(bs, lead) && AllClosed(lead)
    ensures AllClosed(bs)
  {
    forall k | 0 <= k < |bs| ensures !Open(bs[k]) {
      assert Behind(bs[k], lead[k]);
    }
  }

  lemma RetainCons(bs: seq<Bucket>, newer: seq<Snapshot>, s: seq<Snapshot>)
    requires newer != []
    ensures var oldest := |newer + s| == 1;
            var rest := Retain(TurnAll(bs, newer[0], oldest), newer[1..] + s);
            Retain(bs, newer + s) == if AnyTakes(bs, newer[0], oldest) then [newer[0]] + rest else rest
  {
    assert (newer + s)[1..] == newer[1..] + s;
  }

  lemma AllStayBehindFresh(bs: seq<Bucket>, lead: seq<Bucket>, snap: Snapshot, oldest: bool)
    requires AllBehind(bs, lead) && AllFresh(lead)
    ensures AllBehind(TurnAll(bs, snap, oldest), lead)
  {
    forall k | 0 <= k < |bs| ensures Behind(Turn(bs[k], snap, oldest), lead[k]) {
      StaysBehindFresh(bs[k], lead[k], snap, oldest);
    }
  }

  lemma StaysBehindFresh(b: Bucket, a: Bucket, snap: Snapshot, oldest: bool)
    requires Behind(b, a) && a.last == -1
    ensures Behind(Turn(b, snap, oldest), a)
  {
  }

  // ----- The laws -----

  lemma RetainSorted(snapshots: seq<Snapshot>, q: Quotas)
    ensures Sorted(Prune(snapshots, q))
    ensures multiset(Prune(snapshots, q)) <= multiset(snapshots)
  {
    NewestFirstSorts(snapshots);
    var all := [Bucket(Last, -1, -1), Bucket(Daily, -1, -1), Bucket(Weekly, -1, -1), Bucket(Monthly, -1, -1),
                Bucket(Yearly, -1, -1)];
    RetainIsSubsequence(Fresh(q), all, NewestFirst(snapshots));
    UnlimitedLastKeepsAll(all, NewestFirst(snapshots));
    SubsequenceMembers(Prune(snapshots, q), NewestFirst(snapshots));
    SubsequenceSorted(Prune(snapshots, q), NewestFirst(snapshots));
  }

  lemma {:induction false} UnlimitedLastKeepsAll(bs: seq<Bucket>, s: seq<Snapshot>)
    requires |bs| > 0 && bs[0].period.Last? && bs[0].counter == -1
    ensures Retain(bs, s) == s
    decreases |s|
  {
    if s != [] {
      assert Takes(bs[0], s[0], |s| == 1);
      UnlimitedLastKeepsAll(TurnAll(bs, s[0], |s| == 1), s[1..]);
    }
  }

  /** Pruning twice is pruning once. */
  lemma PruneIdempotent(snapshots: seq<Snapshot>, q: Quotas)
    ensures Prune(Prune(snapshots, q), q) == Prune(snapshots, q)
  {
    RetainSorted(snapshots, q);
    NewestFirstOfSorted(Prune(snapshots, q));
    Absorb(Fresh(q), Fresh(q), NewestFirst(snapshots));
  }

  predicate QuotasAtMost(q: Quotas, r: Quotas) {
    && AtMost(q.last, r.last) && AtMost(q.daily, r.daily) && AtMost(q.weekly, r.weekly)
    && AtMost(q.monthly, r.monthly) && AtMost(q.yearly, r.yearly)
  }

  /** Raising any quota, -1 counting as infinity, never drops a snapshot that was kept. */
  lemma PruneMonotone(snapshots: seq<Snapshot>, q: Quotas, r: Quotas)
    requires QuotasAtMost(q, r)
    ensures IsSubsequence(Prune(snapshots, q), Prune(snapshots, r))
    ensures Prune(Prune(snapshots, r), q) == Prune(snapshots, q)
  {
    RetainIsSubsequence(Fresh(q), Fresh(r), NewestFirst(snapshots));
    Absorb(Fresh(q), Fresh(r), NewestFirst(snapshots));
    RetainSorted(snapshots, r);
    NewestFirstOfSorted(Prune(snapshots, r));
  }

  /** Pruning the old snapshots before newer ones arrive changes nothing in the end. */
  lemma PruneStepwise(newer: seq<Snapshot>, older: seq<Snapshot>, q: Quotas)
    requires forall n :: n in newer ==> OlderThan(older, n)
    ensures Prune(newer + Prune(older, q), q) == Prune(newer + older, q)
  {
    NewestFirstOfNewer(newer, older);
    KeptComesAfter(newer, older, q);
    AbsorbAfter(Fresh(q), Fresh(q), NewestFirst(newer), NewestFirst(older));
  }

  lemma KeptComesAfter(newer: seq<Snapshot>, older: seq<Snapshot>, q: Quotas)
    requires forall n :: n in newer ==> OlderThan(older, n)
    ensures NewestFirst(newer + Prune(older, q)) == NewestFirst(newer) + Prune(older, q)
  {
    var kept := Prune(older, q);
    RetainSorted(older, q);
    forall n | n in newer ensures OlderThan(kept, n) {
      FewerOlder(kept, older, n);
    }
    NewestFirstOfNewer(newer, kept);
    NewestFirstOfSorted(kept);
  }

  lemma FewerOlder(kept: seq<Snapshot>, all: seq<Snapshot>, n: Snapshot)
    requires multiset(kept) <= multiset(all) && OlderThan(all, n)
    ensures OlderThan(kept, n)
  {
    forall o | o in kept ensures NotNewer(o, n) {
      assert o in multiset(kept);
      assert o in multiset(all);
    }
  }

  /** The survivors of a run that prunes after each arrival; `arrivals` lists the last one first. */
  function Survivors(arrivals: seq<Snapshot>, q: Quotas): seq<Snapshot> {
    if arrivals == [] then [] else Prune([arrivals[0]] + Survivors(arrivals[1..], q), q)
  }

  /** After any run of arrivals in time order, the survivors are those of pruning, once, every
      snapshot ever made. */
  lemma {:induction false} RunEqualsPruningOnce(arrivals: seq<Snapshot>, q: Quotas)
    requires Sorted(arrivals)
    ensures Survivors(arrivals, q) == Prune(arrivals, q)
  {
    if arrivals == [] {
    } else {
      RunEqualsPruningOnce(arrivals[1..], q);
      SortedTail(arrivals);
      assert [arrivals[0]] + arrivals[1..] == arrivals;
      PruneStepwise([arrivals[0]], arrivals[1..], q);
    }
  }

  // ----- How much is kept -----

  function Budget(bs: seq<Bucket>): int {
    if bs == [] then 0 else bs[0].counter + Budget(bs[1..])
  }

  lemma {:induction false} BudgetSpent(bs: seq<Bucket>, snap: Snapshot, oldest: bool)
    requires forall k :: 0 <= k < |bs| ==> bs[k].counter >= 0
    ensures 0 <= Budget(TurnAll(bs, snap, oldest)) <= Budget(bs)
    ensures AnyTakes(bs, snap, oldest) ==> Budget(TurnAll(bs, snap, oldest)) < Budget(bs)
  {
    if bs != [] {
      BudgetSpent(bs[1..], snap, oldest);
      assert TurnAll(bs, snap, oldest)[1..] == TurnAll(bs[1..], snap, oldest);
      if AnyTakes(bs, snap, oldest) {
        var k :| 0 <= k < |bs| && Takes(bs[k], snap, oldest);
        assert k > 0 ==> Takes(bs[1..][k - 1], snap, oldest);
      }
    }
  }

  lemma {:induction false} RetainWithinBudget(bs: seq<Bucket>, s: seq<Snapshot>)
    requires forall k :: 0 <= k < |bs| ==> bs[k].counter >= 0
    ensures |Retain(bs, s)| <= Budget(bs)
    decreases |s|
  {
    if s == [] {
      BudgetSpent(bs, Snapshot("", "", Civil(1970, 1, 1, 0), AUTO), false);
    } else {
      BudgetSpent(bs, s[0], |s| == 1);
      RetainWithinBudget(TurnAll(bs, s[0], |s| == 1), s[1..]);
    }
  }

  /** Standardised, limited quotas bound the number of snapshots by their sum; an unlimited
      `last` keeps everything. */
  lemma PruneSize(snapshots: seq<Snapshot>, q: Quotas)
    ensures q.last >= 0 && q.daily >= 0 && q.weekly >= 0 && q.monthly >= 0 && q.yearly >= 0 ==>
              |Prune(snapshots, q)| <= q.last + q.daily + q.weekly + q.monthly + q.yearly
    ensures q.last == -1 ==> Prune(snapshots, q) == NewestFirst(snapshots)
  {
    if q.last == -1 {
      UnlimitedLastKeepsAll(Fresh(q), NewestFirst(snapshots));
    }
    if q.last >= 0 && q.daily >= 0 && q.weekly >= 0 && q.monthly >= 0 && q.yearly >= 0 {
      RetainWithinBudget(Fresh(q), NewestFirst(snapshots));
      BudgetOfFresh(q);
    }
  }

  lemma BudgetOfFresh(q: Quotas)
    ensures Budget(Fresh(q)) == q.last + q.daily + q.weekly + q.monthly + q.yearly
  {
    var bs := Fresh(q);
    assert Budget(bs[4..]) == q.yearly;
    assert Budget(bs[3..]) == q.monthly + Budget(bs[4..]) by { assert bs[3..][1..] == bs[4..]; }
    assert Budget(bs[2..]) == q.weekly + Budget(bs[3..]) by { assert bs[2..][1..] == bs[3..]; }
    assert Budget(bs[1..]) == q.daily + Budget(bs[2..]) by { assert bs[1..][1..] == bs[2..]; }
    assert bs[0..] == bs;
  }

  predicate KeepsSomething(q: Quotas) {
    exists k :: 0 <= k < 5 && Open(Fresh(q)[k])
  }

  lemma OpenTakesFirst(bs: seq<Bucket>, k: nat, s: seq<Snapshot>)
    requires s != [] && k < |bs| && Open(bs[k]) && bs[k].last == -1
    ensures Retain(bs, s) != [] && Retain(bs, s)[0] == s[0]
  {
    KeysPositive(s[0].createdAt);
    assert Takes(bs[k], s[0], |s| == 1);
  }

  /** The newest snapshot survives exactly when some quota is open; otherwise nothing does. */
  lemma NewestSurvives(snapshots: seq<Snapshot>, q: Quotas)
    requires snapshots != []
    ensures var newest := NewestFirst(snapshots)[0];
            if KeepsSomething(q) then Prune(snapshots, q) != [] && Prune(snapshots, q)[0] == newest
            else Prune(snapshots, q) == []
  {
    var s := NewestFirst(snapshots);
    if KeepsSomething(q) {
      var k :| 0 <= k < 5 && Open(Fresh(q)[k]);
      OpenTakesFirst(Fresh(q), k, s);
    } else {
      EmptyOnlyWhenClosed(Fresh(q), s);
    }
  }
}
