/** A cache validated by a version tag, shared by concurrent readers: read the tag, look into the
    cache, on a miss read the data and store it under the tag read before. A writer replaces tag
    and data in one transaction. Other tasks may run at every `await`. */
module TaggedCache {
  import opened Wrappers

  /** What one commit publishes. Data may exist before any tag does. */
  datatype Version = Version(tag: Option<string>, data: string)

  /** A cached pair; `tagOf` and `dataOf` number the versions its two halves were read from. */
  datatype Entry = Entry(tag: string, data: string, tagOf: nat, dataOf: nat)

  /** Where a reader stands. `begun` numbers the version current when it was called, `tagOf` and
      `dataOf` those current when it read the tag and the data. */
  datatype Reader =
    | Called(begun: nat)
    | HasTag(begun: nat, tagOf: nat)
    | Missed(begun: nat, tagOf: nat)
    | HasData(begun: nat, tagOf: nat, dataOf: nat)
    | Returned(begun: nat, tagOf: nat, data: string, dataOf: nat)

  /** `history` lists every version committed so far, the current one last. */
  datatype State = State(history: seq<Version>, cache: Option<Entry>, readers: map<nat, Reader>)

  datatype Action =
    | Commit(version: Version)
    | Call(reader: nat)
    | ReadTag(reader: nat)
    | LookUp(reader: nat)
    | ReadTagAndLookUp(reader: nat)
    | ReadData(reader: nat)
    | Fill(reader: nat)

  ghost predicate WellFormed(s: State) { s.history != [] }

  function Latest(s: State): nat
    requires WellFormed(s)
  {
    |s.history| - 1
  }

  predicate Hit(s: State, tagOf: nat)
    requires tagOf < |s.history|
  {
    s.history[tagOf].tag.Some? && s.cache.Some? && s.cache.value.tag == s.history[tagOf].tag.value
  }

  /** The result of looking into the cache with the tag of version `tagOf`. */
  function Looked(s: State, begun: nat, tagOf: nat): Reader
    requires tagOf < |s.history|
  {
    if Hit(s, tagOf) then Returned(begun, tagOf, s.cache.value.data, s.cache.value.dataOf) else Missed(begun, tagOf)
  }

  ghost predicate Step(s: State, a: Action, t: State)
    requires WellFormed(s)
  {
    match a
    case Commit(v) => t == s.(history := s.history + [v])
    case Call(r) => t == s.(readers := s.readers[r := Called(Latest(s))])
    case ReadTag(r) =>
      && r in s.readers && s.readers[r].Called?
      && t == s.(readers := s.readers[r := HasTag(s.readers[r].begun, Latest(s))])
    case LookUp(r) =>
      && r in s.readers && s.readers[r].HasTag? && s.readers[r].tagOf < |s.history|
      && t == s.(readers := s.readers[r := Looked(s, s.readers[r].begun, s.readers[r].tagOf)])
    case ReadTagAndLookUp(r) =>
      && r in s.readers && s.readers[r].Called?
      && t == s.(readers := s.readers[r := Looked(s, s.readers[r].begun, Latest(s))])
    case ReadData(r) =>
      && r in s.readers && s.readers[r].Missed?
      && t == s.(readers := s.readers[r := HasData(s.readers[r].begun, s.readers[r].tagOf, Latest(s))])
    case Fill(r) =>
      && r in s.readers && s.readers[r].HasData?
      && var reader := s.readers[r];
      reader.tagOf < |s.history| && reader.dataOf < |s.history|
      && var tag, data := s.history[reader.tagOf].tag, s.history[reader.dataOf].data;
      t == State(s.history,
                 if tag.Some? then Some(Entry(tag.value, data, reader.tagOf, reader.dataOf)) else s.cache,
                 s.readers[r := Returned(reader.begun, reader.tagOf, data, reader.dataOf)])
  }

  ghost predicate Init(s: State) {
    |s.history| == 1 && s.cache == None && s.readers == map[]
  }

  ghost predicate Run(states: seq<State>, actions: seq<Action>) {
    && |states| == |actions| + 1
    && Init(states[0])
    && forall i :: 0 <= i < |actions| ==> WellFormed(states[i]) && Step(states[i], actions[i], states[i + 1])
  }

  ghost predicate TagsNeverRecur(history: seq<Version>) {
    forall i, j :: 0 <= i < j < |history| && history[i].tag.Some? ==> history[i].tag != history[j].tag
  }

  // ----- The invariant -----

  /** A cached entry's data is never older than its tag. */
  ghost predicate EntryCoherent(s: State) {
    s.cache.Some? ==>
      var e := s.cache.value;
      e.tagOf <= e.dataOf < |s.history| && s.history[e.tagOf].tag == Some(e.tag) && s.history[e.dataOf].data == e.data
  }

  ghost predicate ReaderCoherent(s: State, reader: Reader) {
    match reader
    case Called(begun) => begun < |s.history|
    case HasTag(begun, tagOf) => begun <= tagOf < |s.history|
    case Missed(begun, tagOf) => begun <= tagOf < |s.history|
    case HasData(begun, tagOf, dataOf) => begun <= tagOf <= dataOf < |s.history|
    case Returned(begun, tagOf, data, dataOf) =>
      begun <= tagOf <= dataOf < |s.history| && data == s.history[dataOf].data
  }

  ghost predicate Inv(s: State) {
    && WellFormed(s) && EntryCoherent(s)
    && forall r :: r in s.readers ==> ReaderCoherent(s, s.readers[r])
  }

  /** With tags that never recur, an entry that matches a tag holds data no older than it. */
  lemma LookUpCoherent(s: State, begun: nat, tagOf: nat)
    requires Inv(s) && TagsNeverRecur(s.history) && begun <= tagOf < |s.history|
    ensures ReaderCoherent(s, Looked(s, begun, tagOf))
    ensures tagOf == Latest(s) && Hit(s, tagOf) ==> s.cache.value.dataOf == tagOf
  {
    if Hit(s, tagOf) {
      var e := s.cache.value;
      assert e.tagOf == tagOf;
    }
  }

  lemma StepKeepsInv(s: State, a: Action, t: State)
    requires Inv(s) && Step(s, a, t) && TagsNeverRecur(s.history)
    ensures Inv(t)
  {
    match a
    case Commit(v) =>
      forall r | r in t.readers ensures ReaderCoherent(t, t.readers[r]) {
        assert ReaderCoherent(s, s.readers[r]);
      }
    case LookUp(r) => LookUpCoherent(s, s.readers[r].begun, s.readers[r].tagOf);
    case ReadTagAndLookUp(r) => LookUpCoherent(s, s.readers[r].begun, Latest(s));
    case _ =>
  }

  lemma {:induction false} HistoryGrows(states: seq<State>, actions: seq<Action>, i: nat, j: nat)
    requires Run(states, actions) && i <= j <= |actions|
    ensures states[i].history <= states[j].history
    decreases j
  {
    if i < j {
      HistoryGrows(states, actions, i, j - 1);
      assert Step(states[j - 1], actions[j - 1], states[j]);
    }
  }

  lemma PrefixTagsNeverRecur(a: seq<Version>, b: seq<Version>)
    requires a <= b && TagsNeverRecur(b)
    ensures TagsNeverRecur(a)
  {
  }

  lemma {:induction false} RunKeepsInv(states: seq<State>, actions: seq<Action>, k: nat)
    requires Run(states, actions) && k <= |actions|
    requires TagsNeverRecur(states[|actions|].history)
    ensures Inv(states[k])
  {
    if k > 0 {
      RunKeepsInv(states, actions, k - 1);
      HistoryGrows(states, actions, k - 1, |actions|);
      PrefixTagsNeverRecur(states[k - 1].history, states[|actions|].history);
      StepKeepsInv(states[k - 1], actions[k - 1], states[k]);
    }
  }

  // ----- What a caller gets -----

  /** Reader `r` is called at step `from` and has its answer after step `until`. */
  ghost predicate CallSpans(states: seq<State>, actions: seq<Action>, r: nat, from: nat, until: nat)
    requires Run(states, actions)
  {
    && from < until < |actions| && actions[from] == Call(r)
    && (forall k :: from < k <= until ==> actions[k] != Call(r))
    && r in states[until + 1].readers && states[until + 1].readers[r].Returned?
  }

  lemma {:induction false} BegunStays(states: seq<State>, actions: seq<Action>, r: nat, from: nat, k: nat)
    requires Run(states, actions) && from < k <= |actions| && actions[from] == Call(r)
    requires forall j :: from < j < k ==> actions[j] != Call(r)
    ensures r in states[k].readers && states[k].readers[r].begun == Latest(states[from])
    decreases k
  {
    if k > from + 1 {
      BegunStays(states, actions, r, from, k - 1);
      assert Step(states[k - 1], actions[k - 1], states[k]);
    } else {
      assert Step(states[from], actions[from], states[k]);
    }
  }

  /** The history takes on every length on its way. */
  lemma {:induction false} MomentOf(states: seq<State>, actions: seq<Action>, from: nat, until: nat, version: nat)
    returns (m: nat)
    requires Run(states, actions) && from <= until <= |actions|
    requires |states[from].history| <= version + 1 <= |states[until].history|
    ensures from <= m <= until && |states[m].history| == version + 1
    decreases until
  {
    if |states[until].history| == version + 1 {
      m := until;
    } else {
      assert Step(states[until - 1], actions[until - 1], states[until]);
      m := MomentOf(states, actions, from, until - 1, version);
    }
  }

  /** Every answer, from the cache or not, is data that was current at some moment between the
      call and the return, however many readers and commits interleave. */
  lemma AnswersAreLinearizable(states: seq<State>, actions: seq<Action>, r: nat, from: nat, until: nat)
    requires Run(states, actions) && TagsNeverRecur(states[|actions|].history)
    requires CallSpans(states, actions, r, from, until)
    ensures exists m :: from <= m <= until + 1 && states[m].history != []
              && states[m].history[|states[m].history| - 1].data == states[until + 1].readers[r].data
  {
    RunKeepsInv(states, actions, from);
    RunKeepsInv(states, actions, until + 1);
    BegunStays(states, actions, r, from, until + 1);
    var answer := states[until + 1].readers[r];
    assert ReaderCoherent(states[until + 1], answer);
    var m := MomentOf(states, actions, from, until + 1, answer.dataOf);
    HistoryGrows(states, actions, m, until + 1);
    assert states[m].history[|states[m].history| - 1] == states[until + 1].history[answer.dataOf];
  }

  // ----- Exactly when a hit is the data of its tag -----

  ghost predicate ReadsTag(a: Action, r: nat) { a == ReadTag(r) || a == ReadTagAndLookUp(r) }

  /** Reader `r` is not called anew in the steps between `from` and `until`. */
  ghost predicate SameCall(actions: seq<Action>, r: nat, from: nat, until: nat)
    requires until <= |actions|
  {
    forall m :: from < m < until ==> actions[m] != Call(r)
  }

  /** The step is a fill that stores something: its reader saw a tag. */
  ghost predicate Stores(s: State, a: Action) {
    && a.Fill? && a.reader in s.readers && s.readers[a.reader].HasData?
    && var tagOf := s.readers[a.reader].tagOf;
    tagOf < |s.history| && s.history[tagOf].tag.Some?
  }

  /** What the cache holds before step `k` was stored at step `l` by reader `f`, which had read
      its tag at step `i` and its data at step `j` of the same call. */
  ghost predicate FilledBy(states: seq<State>, actions: seq<Action>, f: nat, i: nat, j: nat, l: nat, k: nat) {
    && i < j < l < k <= |actions| < |states|
    && ReadsTag(actions[i], f) && actions[j] == ReadData(f) && actions[l] == Fill(f)
    && SameCall(actions, f, i, l)
    && Stores(states[l], actions[l])
    && (forall m :: l < m < k ==> !Stores(states[m], actions[m]))
  }

  ghost predicate NoCommit(actions: seq<Action>, from: nat, until: nat)
    requires until <= |actions|
  {
    forall m :: from <= m < until ==> !actions[m].Commit?
  }

  lemma {:induction false} HistoryStays(states: seq<State>, actions: seq<Action>, i: nat, j: nat)
    requires Run(states, actions) && i <= j <= |actions|
    ensures |states[i].history| <= |states[j].history|
    ensures |states[i].history| == |states[j].history| <==> NoCommit(actions, i, j)
    decreases j
  {
    if i < j {
      HistoryStays(states, actions, i, j - 1);
      assert Step(states[j - 1], actions[j - 1], states[j]);
    }
  }

  lemma {:induction false} TagStays(states: seq<State>, actions: seq<Action>, r: nat, i: nat, n: nat)
    requires Run(states, actions) && i < n <= |actions|
    requires ReadsTag(actions[i], r) && SameCall(actions, r, i, n)
    ensures r in states[n].readers && !states[n].readers[r].Called?
    ensures states[n].readers[r].tagOf == |states[i].history| - 1
    decreases n
  {
    if i < n - 1 {
      TagStays(states, actions, r, i, n - 1);
    }
    assert Step(states[n - 1], actions[n - 1], states[n]);
  }

  lemma {:induction false} DataStays(states: seq<State>, actions: seq<Action>, r: nat, j: nat, n: nat)
    requires Run(states, actions) && j < n <= |actions|
    requires actions[j] == ReadData(r) && SameCall(actions, r, j, n)
    ensures r in states[n].readers && (states[n].readers[r].HasData? || states[n].readers[r].Returned?)
    ensures states[n].readers[r].dataOf == |states[j].history| - 1
    decreases n
  {
    if j < n - 1 {
      DataStays(states, actions, r, j, n - 1);
    }
    assert Step(states[n - 1], actions[n - 1], states[n]);
  }

  lemma {:induction false} EntryStays(states: seq<State>, actions: seq<Action>, l: nat, n: nat)
    requires Run(states, actions) && l <= n <= |actions|
    requires forall m :: l <= m < n ==> !Stores(states[m], actions[m])
    ensures states[n].cache == states[l].cache
    decreases n
  {
    if l < n {
      EntryStays(states, actions, l, n - 1);
      assert Step(states[n - 1], actions[n - 1], states[n]);
    }
  }

  lemma EntryOfFill(states: seq<State>, actions: seq<Action>, f: nat, i: nat, j: nat, l: nat, k: nat)
    requires Run(states, actions) && FilledBy(states, actions, f, i, j, l, k)
    ensures states[k].cache.Some?
    ensures states[k].cache.value.tagOf == |states[i].history| - 1
    ensures states[k].cache.value.dataOf == |states[j].history| - 1
  {
    TagStays(states, actions, f, i, l);
    DataStays(states, actions, f, j, l);
    assert Step(states[l], actions[l], states[l + 1]);
    EntryStays(states, actions, l + 1, k);
  }

  /** A reader on its way has read its tag, ... */
  lemma {:induction false} TagWasRead(states: seq<State>, actions: seq<Action>, r: nat, n: nat) returns (i: nat)
    requires Run(states, actions) && n <= |actions| && r in states[n].readers
    requires states[n].readers[r].HasTag? || states[n].readers[r].Missed?
    ensures i < n && ReadsTag(actions[i], r) && SameCall(actions, r, i, n)
    decreases n
  {
    var a := actions[n - 1];
    assert Step(states[n - 1], a, states[n]);
    if ReadsTag(a, r) {
      i := n - 1;
    } else {
      i := TagWasRead(states, actions, r, n - 1);
    }
  }

  /** ... and then its data. */
  lemma {:induction false} DataWasRead(states: seq<State>, actions: seq<Action>, r: nat, n: nat)
    returns (i: nat, j: nat)
    requires Run(states, actions) && n <= |actions| && r in states[n].readers && states[n].readers[r].HasData?
    ensures i < j < n && ReadsTag(actions[i], r) && actions[j] == ReadData(r) && SameCall(actions, r, i, n)
    decreases n
  {
    var a := actions[n - 1];
    assert Step(states[n - 1], a, states[n]);
    if a == ReadData(r) {
      j := n - 1;
      i := TagWasRead(states, actions, r, n - 1);
    } else {
      i, j := DataWasRead(states, actions, r, n - 1);
    }
  }

  /** Whatever the cache holds, some reader stored it. */
  lemma {:induction false} EntryWasFilled(states: seq<State>, actions: seq<Action>, k: nat)
    returns (f: nat, i: nat, j: nat, l: nat)
    requires Run(states, actions) && k <= |actions| && states[k].cache.Some?
    ensures FilledBy(states, actions, f, i, j, l, k)
    decreases k
  {
    var a := actions[k - 1];
    assert Step(states[k - 1], a, states[k]);
    if Stores(states[k - 1], a) {
      f, l := a.reader, k - 1;
      i, j := DataWasRead(states, actions, f, l);
    } else {
      f, i, j, l := EntryWasFilled(states, actions, k - 1);
    }
  }

  /** Step `k` of the run answers reader `r` from the cache. */
  ghost predicate HitAt(states: seq<State>, actions: seq<Action>, k: nat, r: nat) {
    && k < |actions| < |states| && (actions[k] == LookUp(r) || actions[k] == ReadTagAndLookUp(r))
    && r in states[k + 1].readers && states[k + 1].readers[r].Returned?
  }

  /** A hit returns the data that was current when its tag was read exactly when no commit came
      between the two reads of whoever filled the cache. Otherwise it returns newer data: what
      that reader saw. Commits between a caller's own tag read and its look into the cache do
      not matter. */
  lemma HitIsExactlyItsFill(states: seq<State>, actions: seq<Action>, k: nat, r: nat, f: nat, i: nat, j: nat, l: nat)
    requires Run(states, actions) && TagsNeverRecur(states[|actions|].history)
    requires HitAt(states, actions, k, r) && FilledBy(states, actions, f, i, j, l, k)
    ensures var answer := states[k + 1].readers[r];
            && answer.tagOf == |states[i].history| - 1 <= answer.dataOf == |states[j].history| - 1 < |states[k].history|
            && answer.data == states[k].history[answer.dataOf].data
            && (answer.dataOf == answer.tagOf <==> NoCommit(actions, i, j))
  {
    RunKeepsInv(states, actions, k);
    HistoryGrows(states, actions, k, |actions|);
    PrefixTagsNeverRecur(states[k].history, states[|actions|].history);
    assert Step(states[k], actions[k], states[k + 1]);
    assert ReaderCoherent(states[k], states[k].readers[r]);
    EntryOfFill(states, actions, f, i, j, l, k);
    HistoryStays(states, actions, i, j);
  }

  /** In particular when no commit came between reading the tag and looking into the cache, as
      when the two happen in one step. */
  lemma HitIsCurrentAtTag(states: seq<State>, actions: seq<Action>, k: nat, r: nat)
    requires Run(states, actions) && TagsNeverRecur(states[|actions|].history)
    requires HitAt(states, actions, k, r)
    ensures actions[k] == ReadTagAndLookUp(r) || states[k].readers[r].tagOf == Latest(states[k]) ==>
              var answer := states[k + 1].readers[r];
              answer.dataOf == answer.tagOf < |states[k].history| && answer.data == states[k].history[answer.tagOf].data
  {
    assert Step(states[k], actions[k], states[k + 1]);
    var f, i, j, l := EntryWasFilled(states, actions, k);
    HitIsExactlyItsFill(states, actions, k, r, f, i, j, l);
    HistoryStays(states, actions, i, j);
    HistoryStays(states, actions, j, k);
  }

  // ----- Where the guarantees end -----

  /** When a commit does come between, a hit can return data newer than the tag it matched: the
      entry was filled by a reader that the commit overtook. */
  lemma HitCanBeNewerThanTag() returns (states: seq<State>)
    ensures var actions := [Call(0), Call(1), ReadTag(0), ReadTag(1), LookUp(0), Commit(Version(Some("B"), "new")),
                            ReadData(0), Fill(0), LookUp(1)];
            Run(states, actions) && TagsNeverRecur(states[9].history)
    ensures states[8].cache.Some? && states[9].readers == states[8].readers[1 := Returned(0, 0, "new", 1)]
    ensures states[8].history[0] == Version(Some("A"), "old")
  {
    var a, b := Version(Some("A"), "old"), Version(Some("B"), "new");
    var entry := Some(Entry("A", "new", 0, 1));
    states := [
      State([a], None, map[]),
      State([a], None, map[0 := Called(0)]),
      State([a], None, map[0 := Called(0), 1 := Called(0)]),
      State([a], None, map[0 := HasTag(0, 0), 1 := Called(0)]),
      State([a], None, map[0 := HasTag(0, 0), 1 := HasTag(0, 0)]),
      State([a], None, map[0 := Missed(0, 0), 1 := HasTag(0, 0)]),
      State([a, b], None, map[0 := Missed(0, 0), 1 := HasTag(0, 0)]),
      State([a, b], None, map[0 := HasData(0, 0, 1), 1 := HasTag(0, 0)]),
      State([a, b], entry, map[0 := Returned(0, 0, "new", 1), 1 := HasTag(0, 0)]),
      State([a, b], entry, map[0 := Returned(0, 0, "new", 1), 1 := Returned(0, 0, "new", 1)])];
    FirstSteps(states[..6]);
    LastSteps(states[5..]);
  }

  lemma FirstSteps(s: seq<State>)
    requires var a := Version(Some("A"), "old");
             s == [State([a], None, map[]), State([a], None, map[0 := Called(0)]),
                   State([a], None, map[0 := Called(0), 1 := Called(0)]),
                   State([a], None, map[0 := HasTag(0, 0), 1 := Called(0)]),
                   State([a], None, map[0 := HasTag(0, 0), 1 := HasTag(0, 0)]),
                   State([a], None, map[0 := Missed(0, 0), 1 := HasTag(0, 0)])]
    ensures Step(s[0], Call(0), s[1]) && Step(s[1], Call(1), s[2]) && Step(s[2], ReadTag(0), s[3])
    ensures Step(s[3], ReadTag(1), s[4]) && Step(s[4], LookUp(0), s[5])
  {
  }

  lemma LastSteps(s: seq<State>)
    requires var a, b, entry := Version(Some("A"), "old"), Version(Some("B"), "new"), Some(Entry("A", "new", 0, 1));
             s == [State([a], None, map[0 := Missed(0, 0), 1 := HasTag(0, 0)]),
                   State([a, b], None, map[0 := Missed(0, 0), 1 := HasTag(0, 0)]),
                   State([a, b], None, map[0 := HasData(0, 0, 1), 1 := HasTag(0, 0)]),
                   State([a, b], entry, map[0 := Returned(0, 0, "new", 1), 1 := HasTag(0, 0)]),
                   State([a, b], entry, map[0 := Returned(0, 0, "new", 1), 1 := Returned(0, 0, "new", 1)])]
    ensures Step(s[0], Commit(Version(Some("B"), "new")), s[1]) && Step(s[1], ReadData(0), s[2])
    ensures Step(s[2], Fill(0), s[3]) && Step(s[3], LookUp(1), s[4])
  {
  }

  /** If a tag comes back, an entry overtaken under its first use answers for its second: the
      third version is current, and from the second call to its return nothing else was, yet the
      reader gets the data of the second. */
  lemma RecurringTagBreaksCoherence() returns (states: seq<State>)
    ensures var actions := [Call(0), ReadTag(0), LookUp(0), Commit(Version(Some("B"), "two")), ReadData(0), Fill(0),
                            Commit(Version(Some("A"), "three")), Call(1), ReadTagAndLookUp(1)];
            Run(states, actions)
    ensures states[7].history == states[8].history == states[9].history
    ensures states[9].history[0] == Version(Some("A"), "one") && !TagsNeverRecur(states[9].history)
    ensures states[9].history[Latest(states[9])].data == "three"
    ensures 1 in states[9].readers && states[9].readers[1].Returned? && states[9].readers[1].data == "two"
  {
    var a, b, c := Version(Some("A"), "one"), Version(Some("B"), "two"), Version(Some("A"), "three");
    var entry := Some(Entry("A", "two", 0, 1));
    var done := Returned(0, 0, "two", 1);
    states := [
      State([a], None, map[]),
      State([a], None, map[0 := Called(0)]),
      State([a], None, map[0 := HasTag(0, 0)]),
      State([a], None, map[0 := Missed(0, 0)]),
      State([a, b], None, map[0 := Missed(0, 0)]),
      State([a, b], None, map[0 := HasData(0, 0, 1)]),
      State([a, b], entry, map[0 := done]),
      State([a, b, c], entry, map[0 := done]),
      State([a, b, c], entry, map[0 := done, 1 := Called(2)]),
      State([a, b, c], entry, map[0 := done, 1 := Returned(2, 2, "two", 1)])];
    assert states[9].history[0].tag == states[9].history[2].tag;
    BeforeRecurrence(states[..6]);
    AfterRecurrence(states[5..]);
  }

  lemma BeforeRecurrence(s: seq<State>)
    requires var a, b := Version(Some("A"), "one"), Version(Some("B"), "two");
             s == [State([a], None, map[]), State([a], None, map[0 := Called(0)]),
                   State([a], None, map[0 := HasTag(0, 0)]), State([a], None, map[0 := Missed(0, 0)]),
                   State([a, b], None, map[0 := Missed(0, 0)]), State([a, b], None, map[0 := HasData(0, 0, 1)])]
    ensures Step(s[0], Call(0), s[1]) && Step(s[1], ReadTag(0), s[2]) && Step(s[2], LookUp(0), s[3])
    ensures Step(s[3], Commit(Version(Some("B"), "two")), s[4]) && Step(s[4], ReadData(0), s[5])
  {
  }

  lemma AfterRecurrence(s: seq<State>)
    requires var a, b, c := Version(Some("A"), "one"), Version(Some("B"), "two"), Version(Some("A"), "three");
             var entry, done := Some(Entry("A", "two", 0, 1)), Returned(0, 0, "two", 1);
             s == [State([a, b], None, map[0 := HasData(0, 0, 1)]), State([a, b], entry, map[0 := done]),
                   State([a, b, c], entry, map[0 := done]),
                   State([a, b, c], entry, map[0 := done, 1 := Called(2)]),
                   State([a, b, c], entry, map[0 := done, 1 := Returned(2, 2, "two", 1)])]
    ensures Step(s[0], Fill(0), s[1]) && Step(s[1], Commit(Version(Some("A"), "three")), s[2])
    ensures Step(s[2], Call(1), s[3]) && Step(s[3], ReadTagAndLookUp(1), s[4])
  {
  }
}
