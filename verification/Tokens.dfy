/** The token repository over Redis hashes: named device tokens, a counted recovery key and a
    one-shot key for a new device. */
module Tokens {
  import opened Wrappers

  const TOKENS_PREFIX: string := "token_repo:tokens:"

  /** Seconds on the server clock. */
  type Time = int

  const TEN_MINUTES: Time := 600

  datatype Token = Token(token: string, deviceName: string, createdAt: Time)

  datatype RecoveryKey = RecoveryKey(key: string, createdAt: Time, expiresAt: Option<Time>, usesLeft: Option<int>) {
    predicate IsValid(now: Time) {
      && !(expiresAt.Some? && expiresAt.value < now)
      && !(usesLeft.Some? && usesLeft.value <= 0)
    }
  }

  datatype NewDeviceKey = NewDeviceKey(key: string, createdAt: Time, expiresAt: Time) {
    predicate IsValid(now: Time) { !(expiresAt < now) }
  }

  datatype TokenError = TokenNotFound | RecoveryKeyNotFound | InvalidMnemonic | NewDeviceKeyNotFound
                      | CannotDeleteCaller | ExpirationDateInThePast | InvalidUsesLeft

  datatype State = State(tokens: map<string, Token>, recovery: Option<RecoveryKey>, device: Option<NewDeviceKey>)

  /** Stands for the hexadecimal MD5 digest, of which only injectivity is used. */
  function Digest(name: string): string { name }

  function KeyForDevice(name: string): string { TOKENS_PREFIX + Digest(name) }

  lemma KeysInjective(a: string, b: string)
    ensures KeyForDevice(a) == KeyForDevice(b) <==> a == b
    ensures "token_repo:tokens:" <= KeyForDevice(a)
  {
    assert KeyForDevice(a)[|TOKENS_PREFIX|..] == a;
    assert KeyForDevice(b)[|TOKENS_PREFIX|..] == b;
  }

  /** Each token sits under the key of its own device name, so names are unique. */
  ghost predicate Keyed(tokens: map<string, Token>) {
    forall k :: k in tokens ==> k == KeyForDevice(tokens[k].deviceName)
  }

  function Names(tokens: map<string, Token>): set<string> {
    set k | k in tokens :: tokens[k].deviceName
  }

  lemma NamedIffKeyed(tokens: map<string, Token>, name: string)
    requires Keyed(tokens)
    ensures name in Names(tokens) <==> KeyForDevice(name) in tokens
    ensures KeyForDevice(name) in tokens ==> tokens[KeyForDevice(name)].deviceName == name
  {
    if KeyForDevice(name) in tokens {
      KeysInjective(name, tokens[KeyForDevice(name)].deviceName);
    }
  }

  lemma {:induction false} NamesNoMoreThanTokens(tokens: map<string, Token>)
    ensures |Names(tokens)| <= |tokens|
    decreases |tokens|
  {
    if tokens != map[] {
      var k :| k in tokens;
      var rest := tokens - {k};
      NamesNoMoreThanTokens(rest);
      assert Names(tokens) == Names(rest) + {tokens[k].deviceName} by {
        forall n | n in Names(tokens) ensures n in Names(rest) + {tokens[k].deviceName} {
          var j :| j in tokens && tokens[j].deviceName == n;
          assert j != k ==> j in rest && rest[j].deviceName == n;
        }
      }
    } else {
      assert Names(tokens) == {};
    }
  }

  // ----- Device names -----

  predicate IsAlnum(c: char) {
    'a' <= c <= 'z' || 'A' <= c <= 'Z' || '0' <= c <= '9'
  }

  predicate AllAlnum(s: string) { forall c :: c in s ==> IsAlnum(c) }

  /** The pattern `^[a-zA-Z0-9]*$`, whose `$` also matches before a final newline. */
  predicate MatchesNamePattern(s: string) {
    AllAlnum(s) || (s != "" && s[|s| - 1] == '\n' && AllAlnum(s[..|s| - 1]))
  }

  function Underscored(s: string): (r: string)
    ensures |r| == |s| && forall i :: 0 <= i < |s| ==> r[i] == if IsAlnum(s[i]) then s[i] else '_'
  {
    seq(|s|, i requires 0 <= i < |s| => if IsAlnum(s[i]) then s[i] else '_')
  }

  function CleanName(name: string): string {
    var matched := if MatchesNamePattern(name) then name else Underscored(name);
    if matched == "" then "Unknown device" else matched
  }

  predicate OnlyNameCharacters(s: string) { forall c :: c in s ==> IsAlnum(c) || c == '_' }

  /** Letters and digits stay in place. The documentation promises an alphanumeric name with every
      other character replaced. That holds exactly unless the name is empty, when a default with a
      space is used, or is alphanumeric but for a newline at its end, which stays. */
  lemma CleanNameCharacters(name: string)
    ensures CleanName(name) != ""
    ensures OnlyNameCharacters(CleanName(name)) <==>
              !(name == "" || (name[|name| - 1] == '\n' && AllAlnum(name[..|name| - 1])))
    ensures name == "" ==> CleanName(name) == "Unknown device"
    ensures name != "" ==> |CleanName(name)| == |name|
    ensures forall i :: 0 <= i < |name| ==>
              var c := name[i];
              if 'a' <= c <= 'z' || 'A' <= c <= 'Z' || '0' <= c <= '9' then CleanName(name)[i] == c
              else if i == |name| - 1 && c == '\n' && AllAlnum(name[..i]) then CleanName(name)[i] == '\n'
              else CleanName(name)[i] == '_'
  {
    if name == "" {
      assert CleanName(name)[7] == ' ' && ' ' in CleanName(name);
    } else if MatchesNamePattern(name) {
      assert forall i :: 0 <= i < |name| ==> name[i] in name;
      if name[|name| - 1] == '\n' {
        assert '\n' in name;
        var front := name[..|name| - 1];
        assert forall i :: 0 <= i < |front| ==> front[i] in front && front[i] == name[i];
      }
    } else {
      var r := CleanName(name);
      forall c | c in r ensures IsAlnum(c) || c == '_' {
        var i :| 0 <= i < |r| && r[i] == c;
      }
    }
  }

  predicate AllDigits(s: string) { forall c :: c in s ==> '0' <= c <= '9' }

  function LongNames(names: set<string>, length: nat): set<string> {
    set n | n in names && |n| >= length
  }

  lemma SubsetCard(a: set<string>, b: set<string>)
    requires a <= b
    ensures |a| <= |b|
    ensures a < b ==> |a| < |b|
  {
    if a < b {
      var x :| x in b && x !in a;
      SubsetCard(a, b - {x});
    } else {
      assert a == b;
    }
  }

  /** Every shorter series of these digits gives a taken name. */
  ghost predicate AllTaken(base: string, digits: string, names: set<string>) {
    forall i :: 0 <= i < |digits| ==> base + digits[..i] in names
  }

  lemma OneMoreDigit(base: string, digits: string, digit: char, names: set<string>)
    requires AllTaken(base, digits, names) && base + digits in names
    ensures AllTaken(base, digits + [digit], names)
    ensures base + digits + [digit] == base + (digits + [digit])
  {
    var more := digits + [digit];
    forall i | 0 <= i < |more| ensures base + more[..i] in names {
      assert more[..i] == digits[..i];
      assert i == |digits| ==> digits[..i] == digits;
    }
  }

  /** `name` is the clean form of `requested` made unique by the shortest series of digits that
      leaves the taken names, each series tried being one digit longer than the last. */
  ghost predicate UniqueName(name: string, requested: string, tokens: map<string, Token>) {
    && name !in Names(tokens) && name != ""
    && exists digits ::
         && AllDigits(digits) && |digits| <= |tokens|
         && name == CleanName(requested) + digits
         && AllTaken(CleanName(requested), digits, Names(tokens))
  }

  /** Such a name is free; it is the clean form and decimal digits; and without its last digits,
      however many, it is taken. */
  lemma UniqueNameIsShortest(name: string, requested: string, tokens: map<string, Token>)
    requires UniqueName(name, requested, tokens)
    ensures forall k :: k in tokens ==> tokens[k].deviceName != name
    ensures CleanName(requested) <= name && |name| <= |CleanName(requested)| + |tokens|
    ensures forall i :: |CleanName(requested)| <= i < |name| ==>
              '0' <= name[i] <= '9' && exists k :: k in tokens && tokens[k].deviceName == name[..i]
  {
    var clean := CleanName(requested);
    var digits :| && AllDigits(digits) && |digits| <= |tokens| && name == clean + digits
                  && AllTaken(clean, digits, Names(tokens));
    forall i | |clean| <= i < |name|
      ensures '0' <= name[i] <= '9' && exists k :: k in tokens && tokens[k].deviceName == name[..i]
    {
      assert name[i] == digits[i - |clean|] && digits[i - |clean|] in digits;
      assert name[..i] == clean + digits[..i - |clean|];
    }
  }

  // ----- Steps, as the methods below perform them -----

  /** A token is added under a name not in use; nothing is overwritten. */
  ghost predicate Added(before: map<string, Token>, made: Token, after: map<string, Token>) {
    && KeyForDevice(made.deviceName) !in before
    && after == before[KeyForDevice(made.deviceName) := made]
  }

  /** Only the token string of one stored token changes. */
  ghost predicate Refreshed(before: map<string, Token>, input: Token, made: Token, after: map<string, Token>) {
    var key := KeyForDevice(input.deviceName);
    && key in before && before[key] == input
    && made == input.(token := made.token)
    && after == before[key := made]
  }

  /** What a valid use of a recovery key leaves of it; `later` is the clock when it is counted. */
  function Counted(key: RecoveryKey, later: Time): RecoveryKey {
    if key.IsValid(later) && key.usesLeft.Some? then key.(usesLeft := Some(key.usesLeft.value - 1)) else key
  }

  /** A request that changed something, with what it chose or read; a request that was refused
      or only looked leaves the state alone and is `Idle`. */
  datatype Event =
    | Idle
    | Create(made: Token)
    | Refresh(input: Token, made: Token)
    | ApiDelete(callerToken: string, tokenName: string)
    | NewRecoveryKey(key: RecoveryKey)
    | Recover(made: Token, now: Time, later: Time)
    | IssueDeviceKey(deviceKey: NewDeviceKey)
    | Enrol(made: Token, now: Time)
    | RevokeDeviceKey
    | Reset

  /** What one request makes of the state; each method below states that it takes such a step. A
      deletion comes from a caller who holds a stored token. */
  ghost predicate Step(s: State, e: Event, t: State) {
    match e
    case Idle => t == s
    case Create(made) => Added(s.tokens, made, t.tokens) && t == s.(tokens := t.tokens)
    case Refresh(input, made) => Refreshed(s.tokens, input, made, t.tokens) && t == s.(tokens := t.tokens)
    case ApiDelete(caller, name) =>
      && (exists k :: k in s.tokens && s.tokens[k].token == caller)
      && KeyForDevice(name) in s.tokens && s.tokens[KeyForDevice(name)].token != caller
      && t == s.(tokens := s.tokens - {KeyForDevice(name)})
    case NewRecoveryKey(key) => t == s.(recovery := Some(key))
    case Recover(made, now, later) =>
      && now <= later && s.recovery.Some? && s.recovery.value.IsValid(now)
      && Added(s.tokens, made, t.tokens)
      && t == s.(tokens := t.tokens, recovery := Some(Counted(s.recovery.value, later)))
    case IssueDeviceKey(key) => key.expiresAt == key.createdAt + 600 && t == s.(device := Some(key))
    case Enrol(made, now) =>
      && s.device.Some? && s.device.value.IsValid(now)
      && Added(s.tokens, made, t.tokens)
      && t == s.(tokens := t.tokens, device := None)
    case RevokeDeviceKey => t == s.(device := None)
    case Reset => t == State(map[], None, None)
  }

  /** The store holds exactly the listed tokens. */
  ghost predicate Holds(tokens: map<string, Token>, list: seq<Token>) {
    && (forall k :: k in tokens ==> tokens[k] in list)
    && (forall t :: t in list ==> KeyForDevice(t.deviceName) in tokens && tokens[KeyForDevice(t.deviceName)] == t)
    && (forall i, j :: 0 <= i < j < |list| ==> list[i].deviceName != list[j].deviceName)
  }

  lemma OthersElsewhere(tokens: map<string, Token>, list: seq<Token>)
    requires list != [] && Holds(tokens, list)
    ensures forall t :: t in list[1..] ==> t in list && KeyForDevice(t.deviceName) != KeyForDevice(list[0].deviceName)
  {
    forall t | t in list[1..] ensures t in list && KeyForDevice(t.deviceName) != KeyForDevice(list[0].deviceName) {
      var j :| 0 <= j < |list| - 1 && list[1..][j] == t;
      assert list[j + 1] == t;
      KeysInjective(t.deviceName, list[0].deviceName);
    }
  }

  lemma DropFirst(tokens: map<string, Token>, list: seq<Token>)
    requires list != [] && Keyed(tokens) && Holds(tokens, list)
    ensures Holds(tokens - {KeyForDevice(list[0].deviceName)}, list[1..])
  {
    var key := KeyForDevice(list[0].deviceName);
    var fewer := tokens - {key};
    OthersElsewhere(tokens, list);
    forall k | k in fewer ensures fewer[k] in list[1..] {
      assert tokens[k] in list && tokens[k] != list[0];
    }
  }

  class TokensRepository {
    var tokens: map<string, Token>
    var recovery: Option<RecoveryKey>
    var device: Option<NewDeviceKey>

    ghost function Value(): State
      reads this
    {
      State(tokens, recovery, device)
    }

    ghost predicate Valid()
      reads this
    {
      Keyed(tokens)
    }

    // ----- Lookups -----

    /** Every stored token once, in whatever order Redis scans the keys. */
    method GetTokens() returns (result: seq<Token>)
      requires Valid()
      ensures forall t :: t in result <==>
                KeyForDevice(t.deviceName) in tokens && tokens[KeyForDevice(t.deviceName)] == t
      ensures forall i, j :: 0 <= i < j < |result| ==> result[i].deviceName != result[j].deviceName
    {
      result := [];
      var keys := tokens.Keys;
      while keys != {}
        invariant keys <= tokens.Keys
        invariant forall i :: 0 <= i < |result| ==>
                    && KeyForDevice(result[i].deviceName) in tokens.Keys - keys
                    && tokens[KeyForDevice(result[i].deviceName)] == result[i]
        invariant forall k :: k in tokens && k !in keys ==> tokens[k] in result
        invariant forall i, j :: 0 <= i < j < |result| ==> result[i].deviceName != result[j].deviceName
        decreases keys
      {
        var key :| key in keys;
        result := result + [tokens[key]];
        keys := keys - {key};
      }
    }

    method GetTokenByTokenString(tokenString: string) returns (r: Result<Token, TokenError>)
      requires Valid()
      ensures r.Ok? ==> r.value.token == tokenString && KeyForDevice(r.value.deviceName) in tokens
                        && tokens[KeyForDevice(r.value.deviceName)] == r.value
      ensures r.Err? ==> r.error == TokenNotFound && forall k :: k in tokens ==> tokens[k].token != tokenString
    {
      var list := GetTokens();
      for i := 0 to |list|
        invariant forall j :: 0 <= j < i ==> list[j].token != tokenString
      {
        if list[i].token == tokenString {
          assert list[i] in list;
          return Ok(list[i]);
        }
      }
      forall k | k in tokens ensures tokens[k].token != tokenString {
        assert tokens[k] in list;
      }
      return Err(TokenNotFound);
    }

    method GetTokenByName(name: string) returns (r: Result<Token, TokenError>)
      requires Valid()
      ensures r == if KeyForDevice(name) in tokens then Ok(tokens[KeyForDevice(name)]) else Err(TokenNotFound)
    {
      var list := GetTokens();
      NamedIffKeyed(tokens, name);
      for i := 0 to |list|
        invariant forall t :: t in list[..i] ==> t.deviceName != name
      {
        if list[i].deviceName == name {
          assert list[i] in list;
          return Ok(list[i]);
        }
      }
      assert list[..|list|] == list;
      return Err(TokenNotFound);
    }

    method IsTokenValid(tokenString: string) returns (valid: bool)
      requires Valid()
      ensures valid <==> exists k :: k in tokens && tokens[k].token == tokenString
    {
      var found := GetTokenByTokenString(tokenString);
      return found.Ok?;
    }

    method IsTokenNameExists(name: string) returns (known: bool)
      requires Valid()
      ensures known <==> exists k :: k in tokens && tokens[k].deviceName == name
      ensures known <==> name in Names(tokens)
    {
      NamedIffKeyed(tokens, name);
      var found := GetTokenByName(name);
      return found.Ok?;
    }

    method IsTokenNamePairValid(name: string, tokenString: string) returns (valid: bool)
      requires Valid()
      ensures valid <==> KeyForDevice(name) in tokens && tokens[KeyForDevice(name)].token == tokenString
    {
      var found := GetTokenByName(name);
      return found.Ok? && found.value.token == tokenString;
    }

    // ----- Tokens -----

    /** Appends random digits until the name is free; ends for every sequence of digits. */
    method MakeUniqueDeviceName(requested: string) returns (name: string)
      requires Valid()
      ensures UniqueName(name, requested, tokens)
      ensures KeyForDevice(name) !in tokens
    {
      name := CleanName(requested);
      CleanNameCharacters(requested);
      ghost var names, digits := Names(tokens), "";
      assert LongNames(names, |name|) <= names;
      SubsetCard(LongNames(names, |name|), names);
      NamesNoMoreThanTokens(tokens);
      var taken := IsTokenNameExists(name);
      while taken
        invariant taken <==> name in names
        invariant AllDigits(digits) && name == CleanName(requested) + digits
        invariant AllTaken(CleanName(requested), digits, names)
        invariant |digits| + |LongNames(names, |name|)| <= |names|
        decreases |LongNames(names, |name|)|
      {
        var d: nat :| d < 10;
        var digit := "0123456789"[d];
        LongerNames(names, name, name + [digit]);
        OneMoreDigit(CleanName(requested), digits, digit, names);
        name := name + [digit];
        digits := digits + [digit];
        taken := IsTokenNameExists(name);
      }
      NamedIffKeyed(tokens, name);
    }

    lemma LongerNames(names: set<string>, before: string, name: string)
      requires before in names && |name| == |before| + 1
      ensures |LongNames(names, |name|)| < |LongNames(names, |before|)|
    {
      assert before in LongNames(names, |before|) && before !in LongNames(names, |name|);
      SubsetCard(LongNames(names, |name|), LongNames(names, |before|));
    }

    method StoreToken(newToken: Token)
      modifies this`tokens
      ensures tokens == old(tokens)[KeyForDevice(newToken.deviceName) := newToken]
    {
      tokens := tokens[KeyForDevice(newToken.deviceName) := newToken];
    }

    method CreateToken(deviceName: string, tokenString: string, now: Time) returns (newToken: Token)
      requires Valid()
      modifies this`tokens
      ensures Valid() && Added(old(tokens), newToken, tokens)
      ensures tokens == old(tokens)[KeyForDevice(newToken.deviceName) := newToken]
      ensures forall k :: k in old(tokens) ==> k in tokens && tokens[k] == old(tokens)[k]
      ensures UniqueName(newToken.deviceName, deviceName, old(tokens))
      ensures newToken.token == tokenString && newToken.createdAt == now
      ensures Step(old(Value()), Create(newToken), Value())
    {
      var uniqueName := MakeUniqueDeviceName(deviceName);
      newToken := Token(tokenString, uniqueName, now);
      StoreToken(newToken);
    }

    method DiscoverTokenKey(input: Token) returns (key: Option<string>)
      ensures key.Some? ==> key.value in tokens && tokens[key.value] == input
      ensures key.None? ==> forall k :: k in tokens ==> tokens[k] != input
    {
      var keys := tokens.Keys;
      while keys != {}
        invariant keys <= tokens.Keys
        invariant forall k :: k in tokens && k !in keys ==> tokens[k] != input
        decreases keys
      {
        var k :| k in keys;
        if tokens[k] == input {
          return Some(k);
        }
        keys := keys - {k};
      }
      return None;
    }

    method DeleteToken(input: Token) returns (r: Result<(), TokenError>)
      requires Valid()
      modifies this`tokens
      ensures Valid()
      ensures var key := KeyForDevice(input.deviceName);
              if key in old(tokens) && old(tokens)[key] == input then r == Ok(()) && tokens == old(tokens) - {key}
              else r == Err(TokenNotFound) && tokens == old(tokens)
    {
      var key := DiscoverTokenKey(input);
      if key.None? {
        return Err(TokenNotFound);
      }
      tokens := tokens - {key.value};
      return Ok(());
    }

    method RefreshToken(input: Token, tokenString: string) returns (r: Result<Token, TokenError>)
      requires Valid()
      modifies this`tokens
      ensures Valid()
      ensures r.Ok? ==> Refreshed(old(tokens), input, r.value, tokens)
      ensures r.Ok? ==>
        && r.value == Token(tokenString, input.deviceName, input.createdAt)
        && tokens == old(tokens)[KeyForDevice(input.deviceName) := r.value]
      ensures r.Err? ==> r.error == TokenNotFound && tokens == old(tokens)
                         && (KeyForDevice(input.deviceName) in tokens ==>
                               tokens[KeyForDevice(input.deviceName)] != input)
      ensures r.Ok? ==> Step(old(Value()), Refresh(input, r.value), Value())
    {
      var newToken := Token(tokenString, input.deviceName, input.createdAt);
      var list := GetTokens();
      if input in list {
        var deleted := DeleteToken(input);
        StoreToken(newToken);
        return Ok(newToken);
      }
      return Err(TokenNotFound);
    }

    method Reset()
      requires Valid()
      modifies this
      ensures Valid() && Value() == State(map[], None, None)
      ensures Step(old(Value()), Event.Reset, Value())
    {
      var list := GetTokens();
      for i := 0 to |list|
        invariant Valid()
        invariant Holds(tokens, list[i..])
      {
        assert list[i..][0] == list[i] && list[i..][1..] == list[i + 1..];
        DropFirst(tokens, list[i..]);
        var deleted := DeleteToken(list[i]);
      }
      device := None;
      recovery := None;
    }

    // ----- Recovery key -----

    method GetNewApiRecoveryKey(expiration: Option<Time>, usesLeft: Option<int>, key: string, now: Time)
      returns (r: Result<RecoveryKey, TokenError>)
      modifies this`recovery
      ensures r.Ok? ==> recovery == Some(r.value) && r.value == RecoveryKey(key, now, expiration, usesLeft)
      ensures r.Err? ==> recovery == old(recovery)
      ensures r == Err(ExpirationDateInThePast) <==> expiration.Some? && expiration.value < now
      ensures r == Err(InvalidUsesLeft) <==>
                !(expiration.Some? && expiration.value < now) && usesLeft.Some? && usesLeft.value <= 0
      ensures r.Err? ==> r.error.ExpirationDateInThePast? || r.error.InvalidUsesLeft?
      ensures r.Err? <==> !RecoveryKey(key, now, expiration, usesLeft).IsValid(now)
      ensures r.Ok? ==> Step(old(Value()), NewRecoveryKey(r.value), Value())
    {
      if expiration.Some? && expiration.value < now {
        return Err(ExpirationDateInThePast);
      }
      if usesLeft.Some? && usesLeft.value <= 0 {
        return Err(InvalidUsesLeft);
      }
      recovery := Some(RecoveryKey(key, now, expiration, usesLeft));
      return Ok(recovery.value);
    }

    method DecrementRecoveryToken(now: Time)
      modifies this`recovery
      ensures old(recovery).None? ==> recovery == None
      ensures old(recovery).Some? ==> recovery == Some(Counted(old(recovery).value, now))
      ensures old(recovery).Some? ==>
        var before := old(recovery).value;
        var counts := && before.usesLeft.Some? && before.usesLeft.value > 0
                      && (before.expiresAt.Some? ==> now <= before.expiresAt.value);
        recovery == Some(if counts then before.(usesLeft := Some(before.usesLeft.value - 1)) else before)
    {
      if recovery.Some? && recovery.value.IsValid(now) {
        var uses := recovery.value.usesLeft;
        if uses.Some? {
          recovery := Some(recovery.value.(usesLeft := Some(uses.value - 1)));
        }
      }
    }

    /** Mints a token against the recovery key. `phrase` is the key a mnemonic decodes to, absent
        if it is none. The clock is read twice: to admit the use, and again to count it. */
    method UseMnemonicRecoveryKey(phrase: Option<string>, deviceName: string, tokenString: string,
                                  now: Time, later: Time)
      returns (r: Result<Token, TokenError>)
      requires Valid() && now <= later
      modifies this`tokens, this`recovery
      ensures Valid()
      ensures r.Ok? <==>
                && old(recovery).Some? && phrase == Some(old(recovery).value.key)
                && (old(recovery).value.expiresAt.Some? ==> now <= old(recovery).value.expiresAt.value)
                && (old(recovery).value.usesLeft.Some? ==> old(recovery).value.usesLeft.value > 0)
      ensures r.Ok? ==> Added(old(tokens), r.value, tokens) && recovery == Some(Counted(old(recovery).value, later))
      ensures r.Ok? ==> r.value.token == tokenString && r.value.createdAt == now
                        && UniqueName(r.value.deviceName, deviceName, old(tokens))
      ensures r.Err? ==> Value() == old(Value())
      ensures r == Err(InvalidMnemonic) <==>
                && phrase.None? && old(recovery).Some?
                && (old(recovery).value.expiresAt.Some? ==> now <= old(recovery).value.expiresAt.value)
                && (old(recovery).value.usesLeft.Some? ==> old(recovery).value.usesLeft.value > 0)
      ensures r.Err? ==> r.error.InvalidMnemonic? || r.error.RecoveryKeyNotFound?
      ensures r.Ok? ==> Step(old(Value()), Recover(r.value, now, later), Value())
    {
      if recovery.None? || !recovery.value.IsValid(now) {
        return Err(RecoveryKeyNotFound);
      }
      if phrase.None? {
        return Err(InvalidMnemonic);
      }
      if phrase.value != recovery.value.key {
        return Err(RecoveryKeyNotFound);
      }
      var newToken := CreateToken(deviceName, tokenString, now);
      DecrementRecoveryToken(later);
      return Ok(newToken);
    }

    // ----- New device key -----

    method GetNewDeviceKey(key: string, now: Time) returns (r: NewDeviceKey)
      modifies this`device
      ensures device == Some(r) && r == NewDeviceKey(key, now, now + 10 * 60)
      ensures Step(old(Value()), IssueDeviceKey(r), Value())
    {
      r := NewDeviceKey(key, now, now + TEN_MINUTES);
      device := Some(r);
    }

    method DeleteNewDeviceKey()
      modifies this`device
      ensures device == None
      ensures Step(old(Value()), RevokeDeviceKey, Value())
    {
      device := None;
    }

    /** Mints a token against the new-device key and deletes the key. */
    method UseMnemonicNewDeviceKey(phrase: Option<string>, deviceName: string, tokenString: string, now: Time)
      returns (r: Result<Token, TokenError>)
      requires Valid()
      modifies this`tokens, this`device
      ensures Valid()
      ensures r.Ok? <==>
                old(device).Some? && now <= old(device).value.expiresAt && phrase == Some(old(device).value.key)
      ensures r.Ok? ==> Added(old(tokens), r.value, tokens) && device == None
      ensures r.Ok? ==> r.value.token == tokenString && r.value.createdAt == now
                        && UniqueName(r.value.deviceName, deviceName, old(tokens))
      ensures r.Err? ==> Value() == old(Value())
      ensures r == Err(NewDeviceKeyNotFound) <==> old(device).None? || old(device).value.expiresAt < now
      ensures r.Err? ==> r.error.InvalidMnemonic? || r.error.NewDeviceKeyNotFound?
      ensures r.Ok? ==> Step(old(Value()), Enrol(r.value, now), Value())
    {
      if device.None? || !device.value.IsValid(now) {
        return Err(NewDeviceKeyNotFound);
      }
      if phrase != Some(device.value.key) {
        return Err(InvalidMnemonic);
      }
      var newToken := CreateToken(deviceName, tokenString, now);
      DeleteNewDeviceKey();
      return Ok(newToken);
    }

    // ----- Actions open to the API -----

    /** Deletes the token of that name unless it is the caller's own. */
    method DeleteApiToken(callerToken: string, tokenName: string) returns (r: Result<(), TokenError>)
      requires Valid()
      modifies this`tokens
      ensures Valid()
      ensures var key := KeyForDevice(tokenName);
              if key !in old(tokens) then r == Err(TokenNotFound) && tokens == old(tokens)
              else if old(tokens)[key].token == callerToken then r == Err(CannotDeleteCaller) && tokens == old(tokens)
              else r == Ok(()) && tokens == old(tokens) - {key}
      ensures forall k :: k in old(tokens) && old(tokens)[k].token == callerToken ==>
                k in tokens && tokens[k] == old(tokens)[k]
      ensures r.Ok? && (exists k :: k in old(tokens) && old(tokens)[k].token == callerToken) ==>
                Step(old(Value()), ApiDelete(callerToken, tokenName), Value())
    {
      NamedIffKeyed(tokens, tokenName);
      var isCaller := IsTokenNamePairValid(tokenName, callerToken);
      if isCaller {
        return Err(CannotDeleteCaller);
      }
      var known := IsTokenNameExists(tokenName);
      if !known {
        return Err(TokenNotFound);
      }
      var token := GetTokenByName(tokenName);
      r := DeleteToken(token.value);
    }

    method RefreshApiToken(callerToken: string, tokenString: string) returns (r: Result<string, TokenError>)
      requires Valid()
      modifies this`tokens
      ensures Valid()
      ensures r.Err? <==> forall k :: k in old(tokens) ==> old(tokens)[k].token != callerToken
      ensures r.Err? ==> r.error == TokenNotFound && tokens == old(tokens)
      ensures r.Ok? ==> r.value == tokenString
      ensures r.Ok? ==>
                exists k :: k in old(tokens) && old(tokens)[k].token == callerToken
                            && Refreshed(old(tokens), old(tokens)[k], old(tokens)[k].(token := tokenString), tokens)
    {
      var found := GetTokenByTokenString(callerToken);
      if found.Err? {
        return Err(found.error);
      }
      var refreshed := RefreshToken(found.value, tokenString);
      return Ok(refreshed.value.token);
    }
  }
}
