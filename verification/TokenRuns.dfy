/** Whole runs of requests against the token repository, each request one atomic step. */
module TokenRuns {
  import opened Wrappers
  import opened Tokens

  ghost predicate Run(states: seq<State>, events: seq<Event>) {
    && |states| == |events| + 1
    && forall i :: 0 <= i < |events| ==> Step(states[i], events[i], states[i + 1])
  }

  // ----- The store -----

  /** In every reachable state each token sits under the key of its own name. */
  lemma {:induction false} RunKeepsKeyed(states: seq<State>, events: seq<Event>)
    requires Run(states, events) && Keyed(states[0].tokens)
    ensures Keyed(states[|events|].tokens)
    decreases |events|
  {
    if events != [] {
      var n := |events| - 1;
      RunKeepsKeyed(states[..n + 1], events[..n]);
      assert Step(states[n], events[n], states[n + 1]);
    }
  }

  /** A token no request of the run named is there, unchanged, at the end: creating never
      overwrites, and refreshing or deleting another token leaves it alone. */
  lemma {:induction false} UntouchedTokensStay(states: seq<State>, events: seq<Event>, key: string)
    requires Run(states, events) && key in states[0].tokens
    requires forall i :: 0 <= i < |events| ==>
               && !(events[i].Refresh? && KeyForDevice(events[i].input.deviceName) == key)
               && !(events[i].ApiDelete? && KeyForDevice(events[i].tokenName) == key)
               && !events[i].Reset?
    ensures key in states[|events|].tokens && states[|events|].tokens[key] == states[0].tokens[key]
    decreases |events|
  {
    if events != [] {
      var n := |events| - 1;
      UntouchedTokensStay(states[..n + 1], events[..n], key);
      assert Step(states[n], events[n], states[n + 1]);
    }
  }

  lemma StepKeepsSomeToken(s: State, e: Event, t: State)
    requires Step(s, e, t) && Keyed(s.tokens) && !e.Reset? && s.tokens != map[]
    ensures t.tokens != map[]
  {
    match e
    case Create(made) => assert KeyForDevice(made.deviceName) in t.tokens;
    case Refresh(input, made) => assert KeyForDevice(input.deviceName) in t.tokens;
    case ApiDelete(caller, name) =>
      var k :| k in s.tokens && s.tokens[k].token == caller;
      assert k in t.tokens;
    case Recover(made, _, _) => assert KeyForDevice(made.deviceName) in t.tokens;
    case Enrol(made, _) => assert KeyForDevice(made.deviceName) in t.tokens;
    case _ =>
  }

  /** Nobody can lock everybody out through the API: without a reset, a store that holds a token
      holds one forever. */
  lemma {:induction false} StoreStaysNonEmpty(states: seq<State>, events: seq<Event>)
    requires Run(states, events) && Keyed(states[0].tokens) && states[0].tokens != map[]
    requires forall i :: 0 <= i < |events| ==> !events[i].Reset?
    ensures states[|events|].tokens != map[]
    decreases |events|
  {
    if events != [] {
      var n := |events| - 1;
      StoreStaysNonEmpty(states[..n + 1], events[..n]);
      RunKeepsKeyed(states[..n + 1], events[..n]);
      StepKeepsSomeToken(states[n], events[n], states[n + 1]);
    }
  }

  // ----- The recovery budget -----

  predicate KeepsRecoveryKey(e: Event) { !e.NewRecoveryKey? && !e.Reset? }

  function Recoveries(events: seq<Event>): nat {
    if events == [] then 0
    else Recoveries(events[..|events| - 1]) + (if events[|events| - 1].Recover? then 1 else 0)
  }

  ghost predicate ClockRuns(events: seq<Event>) {
    forall i, j :: 0 <= i < j < |events| && events[i].Recover? && events[j].Recover? ==>
      events[i].later <= events[j].now
  }

  /** The use was admitted before the key expired and counted after. */
  predicate Straddles(e: Event, key: RecoveryKey) {
    e.Recover? && key.expiresAt.Some? && e.now <= key.expiresAt.value < e.later
  }

  ghost predicate AnyStraddles(events: seq<Event>, key: RecoveryKey) {
    exists i :: 0 <= i < |events| && Straddles(events[i], key)
  }

  /** Uses left plus tokens minted is the number of uses granted, one more once a use has slipped
      past the expiry; so the two agree exactly when no use straddles the expiry. Never are more
      tokens minted than were granted. */
  lemma {:induction false} RecoveryBudget(states: seq<State>, events: seq<Event>, key: RecoveryKey, granted: int)
    requires Run(states, events) && ClockRuns(events)
    requires forall i :: 0 <= i < |events| ==> KeepsRecoveryKey(events[i])
    requires states[0].recovery == Some(key) && key.usesLeft == Some(granted) && granted > 0
    ensures states[|events|].recovery.Some? && states[|events|].recovery.value.usesLeft.Some?
    ensures var left := states[|events|].recovery.value.usesLeft.value;
            && states[|events|].recovery.value == key.(usesLeft := Some(left))
            && Recoveries(events) + left == granted + (if AnyStraddles(events, key) then 1 else 0)
            && (if AnyStraddles(events, key) then left >= 1 else left >= 0)
    ensures Recoveries(events) <= granted
    decreases |events|
  {
    if events != [] {
      var n := |events| - 1;
      var front := events[..n];
      RecoveryBudget(states[..n + 1], front, key, granted);
      assert Step(states[n], events[n], states[n + 1]);
      StraddlesSplit(events, key);
      if events[n].Recover? {
        StraddledBefore(events, key);
      }
    }
  }

  /** Such a use exists: admitted in the last second of the key and counted a second later, it
      mints a token and leaves the count as it was. */
  lemma StraddlingUseIsNotCounted(s: State, t: State, made: Token)
    requires s == State(map[], Some(RecoveryKey("key", 0, Some(5), Some(1))), None)
    requires t == State(map[KeyForDevice(made.deviceName) := made], s.recovery, None)
    ensures Step(s, Recover(made, 5, 6), t)
    ensures t.recovery.value.usesLeft == s.recovery.value.usesLeft
  {
    assert Added(s.tokens, made, t.tokens);
  }

  /** Once a use has straddled the expiry, every later one comes after it. */
  lemma StraddledBefore(events: seq<Event>, key: RecoveryKey)
    requires ClockRuns(events) && events != [] && events[|events| - 1].Recover?
    ensures AnyStraddles(events[..|events| - 1], key) ==>
              key.expiresAt.Some? && key.expiresAt.value < events[|events| - 1].now
  {
    var front := events[..|events| - 1];
    if AnyStraddles(front, key) {
      var i :| 0 <= i < |front| && Straddles(front[i], key);
      assert events[i].later <= events[|events| - 1].now;
    }
  }

  lemma StraddlesSplit(events: seq<Event>, key: RecoveryKey)
    requires events != []
    ensures AnyStraddles(events, key)
       <==> AnyStraddles(events[..|events| - 1], key) || Straddles(events[|events| - 1], key)
  {
    var front := events[..|events| - 1];
    if AnyStraddles(front, key) {
      var i :| 0 <= i < |front| && Straddles(front[i], key);
      assert Straddles(events[i], key);
    }
    if AnyStraddles(events, key) && !Straddles(events[|events| - 1], key) {
      var i :| 0 <= i < |events| && Straddles(events[i], key);
      assert Straddles(front[i], key);
    }
  }

  lemma {:induction false} RecoveryKeyStays(states: seq<State>, events: seq<Event>, key: RecoveryKey)
    requires Run(states, events)
    requires forall i :: 0 <= i < |events| ==> KeepsRecoveryKey(events[i])
    requires states[0].recovery == Some(key)
    ensures states[|events|].recovery.Some?
    ensures states[|events|].recovery.value == key.(usesLeft := states[|events|].recovery.value.usesLeft)
    ensures key.usesLeft.None? ==> states[|events|].recovery.value.usesLeft.None?
    decreases |events|
  {
    if events != [] {
      var n := |events| - 1;
      RecoveryKeyStays(states[..n + 1], events[..n], key);
      assert Step(states[n], events[n], states[n + 1]);
    }
  }

  /** No token is minted on an expired key, limited or not. */
  lemma NothingAfterExpiry(states: seq<State>, events: seq<Event>, key: RecoveryKey, i: nat)
    requires Run(states, events) && i < |events| && events[i].Recover?
    requires forall j :: 0 <= j < |events| ==> KeepsRecoveryKey(events[j])
    requires states[0].recovery == Some(key)
    ensures key.expiresAt.Some? ==> events[i].now <= key.expiresAt.value
  {
    RecoveryKeyStays(states[..i + 1], events[..i], key);
    assert Step(states[i], events[i], states[i + 1]);
  }

  // ----- The new-device key -----

  function Enrolments(events: seq<Event>): nat {
    if events == [] then 0
    else Enrolments(events[..|events| - 1]) + (if events[|events| - 1].Enrol? then 1 else 0)
  }

  function Issued(events: seq<Event>): nat {
    if events == [] then 0
    else Issued(events[..|events| - 1]) + (if events[|events| - 1].IssueDeviceKey? then 1 else 0)
  }

  lemma {:induction false} EnrolmentsCounted(events: seq<Event>)
    ensures Enrolments(events) == |set i | 0 <= i < |events| && events[i].Enrol?|
  {
    if events != [] {
      var n := |events| - 1;
      EnrolmentsCounted(events[..n]);
      var earlier := set i | 0 <= i < n && events[..n][i].Enrol?;
      assert (set i | 0 <= i < |events| && events[i].Enrol?) == earlier + (if events[n].Enrol? then {n} else {});
    }
  }

  lemma {:induction false} IssuesCounted(events: seq<Event>)
    ensures Issued(events) == |set i | 0 <= i < |events| && events[i].IssueDeviceKey?|
  {
    if events != [] {
      var n := |events| - 1;
      IssuesCounted(events[..n]);
      var earlier := set i | 0 <= i < n && events[..n][i].IssueDeviceKey?;
      assert (set i | 0 <= i < |events| && events[i].IssueDeviceKey?)
          == earlier + (if events[n].IssueDeviceKey? then {n} else {});
    }
  }

  /** Each new-device key mints at most one token, over any run. */
  lemma {:induction false} OneTokenPerDeviceKey(states: seq<State>, events: seq<Event>)
    requires Run(states, events)
    ensures Enrolments(events) + (if states[|events|].device.Some? then 1 else 0)
            <= Issued(events) + (if states[0].device.Some? then 1 else 0)
    decreases |events|
  {
    if events != [] {
      var n := |events| - 1;
      OneTokenPerDeviceKey(states[..n + 1], events[..n]);
      assert Step(states[n], events[n], states[n + 1]);
    }
  }

  predicate ChangesDeviceKey(e: Event) { e.IssueDeviceKey? || e.Enrol? || e.RevokeDeviceKey? || e.Reset? }

  /** A device key that is there was issued, and nothing has touched it since. */
  lemma {:induction false} DeviceKeyWasIssued(states: seq<State>, events: seq<Event>, n: nat) returns (j: nat)
    requires Run(states, events) && states[0].device == None
    requires n <= |events| && states[n].device.Some?
    ensures j < n && events[j].IssueDeviceKey? && states[n].device == Some(events[j].deviceKey)
    ensures events[j].deviceKey.expiresAt == events[j].deviceKey.createdAt + 600
    ensures forall k :: j < k < n ==> !ChangesDeviceKey(events[k])
    decreases n
  {
    assert Step(states[n - 1], events[n - 1], states[n]);
    if events[n - 1].IssueDeviceKey? {
      j := n - 1;
    } else {
      j := DeviceKeyWasIssued(states, events, n - 1);
    }
  }

  /** Every new-device token is minted on a key issued at most ten minutes before, and neither used
      nor revoked nor replaced since. */
  lemma EnrolledInTime(states: seq<State>, events: seq<Event>, i: nat) returns (j: nat)
    requires Run(states, events) && states[0].device == None
    requires i < |events| && events[i].Enrol?
    ensures j < i && events[j].IssueDeviceKey? && events[i].now <= events[j].deviceKey.createdAt + 600
    ensures forall k :: j < k < i ==>
              !events[k].IssueDeviceKey? && !events[k].Enrol? && !events[k].RevokeDeviceKey? && !events[k].Reset?
  {
    assert Step(states[i], events[i], states[i + 1]);
    j := DeviceKeyWasIssued(states, events, i);
  }
}
