/** The in-process cache of the userdata and secrets files: parsed trees of mutable dictionaries
    and lists, handed out as deep copies and validated by the file's stat key. */
module UserData {
  import opened Wrappers

  datatype Kind = DICTIONARY | LIST

  /** A name in a dictionary; in a list, a position, written in digits. */
  type Key = string

  /** A JSON object or array as a value: its leaves, and the objects and arrays in it. */
  datatype Json = Json(kind: Kind, leaves: map<Key, string>, members: map<Key, Json>)

  /** (modification time, size, inode), as one opaque key. */
  type StatKey = int

  const EMPTY_OBJECT: Json := Json(DICTIONARY, map[], map[])

  // ----- Dictionaries and lists on the heap -----

  /** Separate trees that stand, name by name, for the values in `want`. */
  ghost predicate Parts(ms: map<Key, Container>, want: map<Key, Json>)
    reads ms.Values, set k, d | k in ms && d in ms[k].Repr :: d
  {
    && ms.Keys == want.Keys
    && (forall k :: k in ms ==> ms[k].Valid() && ms[k].Value() == want[k])
    && (forall j, k :: j in ms && k in ms && j != k ==> ms[j].Repr !! ms[k].Repr)
  }

  ghost function Under(ms: map<Key, Container>): set<Container>
    reads ms.Values
  {
    set k, d | k in ms && d in ms[k].Repr :: d
  }

  /** `done` is `want` but for the `left` names. */
  ghost predicate Pending(want: map<Key, Json>, left: set<Key>, done: map<Key, Json>) {
    && (forall k :: k in left ==> k in want)
    && (forall k :: k in done <==> k in want && k !in left)
    && (forall k :: k in done ==> done[k] == want[k])
  }

  lemma PendingStep(want: map<Key, Json>, left: set<Key>, done: map<Key, Json>, key: Key)
    requires Pending(want, left, done) && key in left
    ensures Pending(want, left - {key}, done[key := want[key]])
  {
  }

  lemma PendingDone(want: map<Key, Json>, done: map<Key, Json>)
    requires Pending(want, {}, done)
    ensures done == want
  {
  }

  lemma AddPart(ms: map<Key, Container>, want: map<Key, Json>, key: Key, c: Container)
    requires Parts(ms, want) && key !in ms
    requires c.Valid() && forall k :: k in ms ==> ms[k].Repr !! c.Repr
    ensures Parts(ms[key := c], want[key := c.Value()])
  {
  }

  /** A Python dictionary or list: mutable, shared by reference. */
  class Container {
    const kind: Kind
    var leaves: map<Key, string>
    var members: map<Key, Container>
    ghost var Repr: set<Container>

    ghost predicate Valid()
      reads this, Repr
      ensures Valid() ==> this in Repr
      decreases Repr
    {
      && this in Repr
      && (forall k :: k in members ==>
            members[k] in Repr && members[k].Repr <= Repr && this !in members[k].Repr && members[k].Valid())
      && (forall j, k :: j in members && k in members && j != k ==> members[j].Repr !! members[k].Repr)
    }

    function Value(): Json
      requires Valid()
      reads this, Repr
      decreases Repr
    {
      Json(kind, leaves, map k | k in members :: members[k].Value())
    }

    /** A dictionary above separate trees is a tree. */
    lemma TreeOfParts(want: map<Key, Json>)
      requires Parts(members, want)
      requires Repr == {this} + Under(members)
      requires forall k :: k in members ==> this !in members[k].Repr
      ensures Valid() && Value() == Json(kind, leaves, want)
    {
      assert (map k | k in members :: members[k].Value()) == want;
    }

    constructor (kind: Kind, leaves: map<Key, string>, members: map<Key, Container>, ghost want: map<Key, Json>)
      requires Parts(members, want)
      ensures Valid() && Value() == Json(kind, leaves, want)
      ensures Repr == {this} + Under(members)
    {
      this.kind := kind;
      this.leaves := leaves;
      this.members := members;
      this.Repr := {this} + Under(members);
      new;
      TreeOfParts(want);
    }

    /** `copy.deepcopy`: an equal tree that shares no dictionary or list with this one. */
    method DeepCopy() returns (copy: Container)
      requires Valid()
      ensures copy.Valid() && fresh(copy.Repr)
      ensures copy.Value() == Value()
      decreases Repr
    {
      ghost var value := Value();
      var copies := CopyMembers(value);
      copy := new Container(kind, leaves, copies, value.members);
    }

    method CopyMembers(ghost value: Json) returns (copies: map<Key, Container>)
      requires Valid() && value == Value()
      ensures Parts(copies, value.members)
      ensures forall k :: k in copies ==> fresh(copies[k].Repr)
      decreases Repr, 1
    {
      copies := map[];
      ghost var want := value.members;
      ghost var done: map<Key, Json>, made: set<Container> := map[], {};
      var keys := members.Keys;
      while keys != {}
        invariant Pending(want, keys, done)
        invariant Parts(copies, done)
        invariant fresh(made) && forall k :: k in copies ==> copies[k].Repr <= made
        decreases keys
      {
        var key :| key in keys;
        copies := AddCopy(key, value, copies, done);
        made := made + copies[key].Repr;
        PendingStep(want, keys, done, key);
        done := done[key := want[key]];
        keys := keys - {key};
      }
      PendingDone(want, done);
    }

    method AddCopy(key: Key, ghost value: Json, copies: map<Key, Container>, ghost done: map<Key, Json>)
      returns (more: map<Key, Container>)
      requires Valid() && key in members && value == Value()
      requires key !in copies && Parts(copies, done)
      ensures key in more && fresh(more[key].Repr) && more == copies[key := more[key]]
      ensures Parts(more, done[key := value.members[key]])
      decreases Repr, 0
    {
      var c := members[key].DeepCopy();
      AddPart(copies, done, key, c);
      more := copies[key := c];
    }

    method Assign(leaves: map<Key, string>, members: map<Key, Container>, ghost want: map<Key, Json>)
      requires Parts(members, want)
      requires forall k :: k in members ==> this !in members[k].Repr
      modifies this
      ensures Valid() && Value() == Json(kind, leaves, want)
      ensures Repr == {this} + Under(members)
    {
      ghost var under := Under(members);
      assert forall k :: k in members ==> members[k] in members[k].Repr;
      assert this !in under && this !in members.Values;
      this.leaves := leaves;
      this.members := members;
      this.Repr := {this} + under;
      assert Parts(members, want);
      TreeOfParts(want);
    }

    /** Edits the dictionary or list in place until it holds what `json` does. */
    method Become(json: Json)
      modifies this
      ensures Valid() && fresh(Repr - {this})
      ensures Value() == json.(kind := kind)
    {
      var loaded := LoadMembers(json);
      Assign(json.leaves, loaded, json.members);
    }
  }

  /** `json.load`: a tree of new dictionaries and lists. */
  method Load(json: Json) returns (d: Container)
    ensures d.Valid() && fresh(d.Repr) && d.Value() == json
    decreases json, 1
  {
    var loaded := LoadMembers(json);
    d := new Container(json.kind, json.leaves, loaded, json.members);
  }

  method LoadMembers(json: Json) returns (loaded: map<Key, Container>)
    ensures Parts(loaded, json.members)
    ensures forall k :: k in loaded ==> fresh(loaded[k].Repr)
    decreases json, 0
  {
    loaded := map[];
    ghost var done: map<Key, Json>, made: set<Container> := map[], {};
    var keys := json.members.Keys;
    while keys != {}
      invariant Pending(json.members, keys, done)
      invariant Parts(loaded, done)
      invariant fresh(made) && forall k :: k in loaded ==> loaded[k].Repr <= made
      decreases keys
    {
      var key :| key in keys;
      var c := Load(json.members[key]);
      AddPart(loaded, done, key, c);
      loaded, made := loaded[key := c], made + c.Repr;
      PendingStep(json.members, keys, done, key);
      done := done[key := json.members[key]];
      keys := keys - {key};
    }
    PendingDone(json.members, done);
  }

  // ----- The file and its cache -----

  datatype FileError = FileNotFound

  /** The secrets file is created empty when it is opened and missing; the userdata file is not. */
  datatype FileType = USERDATA | SECRETS

  /** A JSON file as all processes see it. `past` records what the file last held under each stat
      key it ever had. */
  class JsonFile {
    const fileType: FileType
    var present: bool
    var contents: Json
    var stat: StatKey
    ghost var past: map<StatKey, Json>

    ghost predicate Valid()
      reads this
    {
      stat in past && past[stat] == contents
    }

    /** What is in the file, if it is there. */
    function State(): Option<Json>
      reads this
    {
      if present then Some(contents) else None
    }

    method Write(newContents: Json, newStat: StatKey)
      requires Valid()
      modifies this
      ensures Valid() && State() == Some(newContents) && stat == newStat
      ensures past == old(past)[newStat := newContents]
    {
      present, contents, stat := true, newContents, newStat;
      past := past[newStat := newContents];
    }

    method Remove()
      requires Valid()
      modifies this`present
      ensures Valid() && State() == None
    {
      present := false;
    }

    /** Makes sure the secrets file exists. */
    method EnsureExists(newStat: StatKey)
      requires Valid() && newStat !in past
      modifies this
      ensures Valid() && State() == Opened(fileType, old(State()))
      ensures past == old(past) || past == old(past)[newStat := EMPTY_OBJECT]
    {
      if fileType == SECRETS && !present {
        Write(EMPTY_OBJECT, newStat);
      }
    }
  }

  /** The file after it has been opened. */
  function Opened(fileType: FileType, state: Option<Json>): Option<Json> {
    if fileType == SECRETS && state == None then Some(EMPTY_OBJECT) else state
  }

  class JsonFileCache {
    const file: JsonFile
    var key: StatKey
    var data: Container?

    constructor (file: JsonFile)
      requires file.Valid()
      ensures Valid() && this.file == file
    {
      this.file := file;
      data := null;
    }

    ghost predicate Sound()
      reads this, file, data, if data == null then {} else data.Repr
      ensures Sound() && data != null ==> data.Valid()
    {
      file.Valid() && (data != null ==> data.Valid())
    }

    /** A cached tree is what the file held under the cached key. */
    ghost predicate Valid()
      reads this, file, data, if data == null then {} else data.Repr
    {
      Sound() && (data != null ==> key in file.past && file.past[key] == data.Value())
    }

    /** The cached tree shares nothing with those in `handed`. */
    ghost predicate Apart(handed: set<Container>)
      reads this, data
    {
      data != null ==> data.Repr !! handed
    }

    method Invalidate()
      requires file.Valid()
      modifies this
      ensures Valid() && data == null
    {
      data := null;
    }

    predicate Hit()
      reads this, file
    {
      data != null && file.present && file.stat == key
    }

    /** Reads through the cache, in dictionaries and lists that neither the cache nor any earlier
        reader holds: what is cached if the key is the cached one, and else what is in the file.
        So it is the file's present contents exactly if they are what was cached under the key. */
    method ReadJsonCached() returns (r: Result<Container, FileError>)
      requires Sound()
      modifies this
      ensures Sound() && (old(Valid()) ==> Valid())
      ensures r.Ok? <==> file.present
      ensures r.Ok? ==> r.value.Valid()
      ensures r.Ok? ==> r.value.Value() == if old(Hit()) then old(data.Value()) else file.contents
      ensures r.Ok? && old(Valid()) ==> r.value.Value() == file.contents
      ensures r.Ok? ==> fresh(r.value.Repr) && Apart(r.value.Repr)
      ensures data != null ==> data == old(data) || fresh(data.Repr)
    {
      if data != null {
        if Hit() {
          var copy := data.DeepCopy();
          return Ok(copy);
        }
        if !file.present {
          Invalidate();
        }
      }
      if !file.present {
        return Err(FileNotFound);
      }
      var copy := Reload();
      return Ok(copy);
    }

    method Reload() returns (copy: Container)
      requires file.Valid()
      modifies this
      ensures Valid() && data != null && fresh(data.Repr)
      ensures copy.Valid() && copy.Value() == file.contents
      ensures fresh(copy.Repr) && Apart(copy.Repr)
    {
      var loaded := Load(file.contents);
      key, data := file.stat, loaded;
      copy := loaded.DeepCopy();
    }

    /** Entering a read block; `newStat` is the key of the secrets file if it has to be made. */
    method ReadUserData(newStat: StatKey) returns (r: Result<Container, FileError>)
      requires Valid() && newStat !in file.past
      modifies this, file
      ensures Valid() && file.State() == Opened(file.fileType, old(file.State()))
      ensures file.past.Keys <= old(file.past).Keys + {newStat}
      ensures r.Ok? <==> file.State().Some?
      ensures r.Ok? ==> r.value.Valid() && Some(r.value.Value()) == file.State()
      ensures old(file.State()) == None && file.fileType == USERDATA ==> r.Err? && file.State() == None
      ensures old(file.State()) == None && file.fileType == SECRETS ==>
                r.Ok? && r.value.Value() == Json(DICTIONARY, map[], map[])
      ensures old(file.State()).Some? ==> file.State() == old(file.State())
      ensures r.Ok? ==> fresh(r.value.Repr) && Apart(r.value.Repr)
      ensures data != null ==> data == old(data) || fresh(data.Repr)
    {
      file.EnsureExists(newStat);
      r := ReadJsonCached();
    }

    /** Entering a write block: the caller gets the contents parsed anew. */
    method BeginWrite(newStat: StatKey) returns (r: Result<Container, FileError>)
      requires Valid() && newStat !in file.past
      modifies file
      ensures Valid() && file.State() == Opened(file.fileType, old(file.State()))
      ensures file.past.Keys <= old(file.past).Keys + {newStat}
      ensures r.Ok? <==> file.State().Some?
      ensures r.Ok? ==> r.value.Valid() && fresh(r.value.Repr) && Some(r.value.Value()) == file.State()
      ensures old(file.State()) == None && file.fileType == USERDATA ==> r.Err? && file.State() == None
      ensures old(file.State()) == None && file.fileType == SECRETS ==>
                r.Ok? && r.value.Value() == Json(DICTIONARY, map[], map[])
      ensures old(file.State()).Some? ==> file.State() == old(file.State())
    {
      file.EnsureExists(newStat);
      if !file.present {
        return Err(FileNotFound);
      }
      var loaded := Load(file.contents);
      return Ok(loaded);
    }

    /** Leaves the write block: on success the file holds what the block made of the data; after
        an exception it is as before. Either way the cache forgets it, so the write need not show
        in the stat key. */
    method EndWrite(edited: Container, committed: bool, newStat: StatKey)
      requires Valid() && edited.Valid()
      modifies this, file
      ensures Valid() && data == null
      ensures !committed ==> unchanged(file)
      ensures committed ==> file.State() == Some(old(edited.Value()))
      ensures committed ==> file.past == old(file.past)[newStat := old(edited.Value())]
    {
      if committed {
        file.Write(edited.Value(), newStat);
      }
      Invalidate();
    }
  }

  // ----- Whole runs -----

  /** What can happen to a file: a read; readers and writers changing whatever they were ever
      given, at any depth; a write block that makes anything of the data and commits or raises;
      and a write or a removal by another process. `created` and `written` are the stat keys the
      file gets if the operation creates or writes it. */
  datatype Op =
    | Read(created: StatKey)
    | Scribble
    | Commit(contents: Json, created: StatKey, written: StatKey)
    | Abort(contents: Json, created: StatKey)
    | ForeignWrite(contents: Json, written: StatKey)
    | ForeignRemove

  /** The stat keys that must be new: of files created, and of those other processes write. */
  function NewKeys(op: Op): set<StatKey> {
    match op
    case Read(created) => {created}
    case Scribble => {}
    case Commit(_, created, _) => {created}
    case Abort(_, created) => {created}
    case ForeignWrite(_, written) => {written}
    case ForeignRemove => {}
  }

  function AllKeys(op: Op): set<StatKey> {
    NewKeys(op) + (if op.Commit? then {op.written} else {})
  }

  /** The file without any cache. */
  function PlainStep(fileType: FileType, state: Option<Json>, op: Op): Option<Json> {
    match op
    case Read(_) => Opened(fileType, state)
    case Scribble => state
    case Commit(contents, _, _) => Edited(Opened(fileType, state), contents)
    case Abort(_, _) => Opened(fileType, state)
    case ForeignWrite(contents, _) => Some(contents)
    case ForeignRemove => None
  }

  /** What a write block leaves: a dictionary stays one, whatever is done to it. */
  function Edited(state: Option<Json>, contents: Json): Option<Json> {
    if state.Some? then Some(contents.(kind := state.value.kind)) else None
  }

  function PlainFile(fileType: FileType, state: Option<Json>, ops: seq<Op>): Option<Json> {
    if ops == [] then state
    else PlainStep(fileType, PlainFile(fileType, state, ops[..|ops| - 1]), ops[|ops| - 1])
  }

  /** What a read returns when it goes to the file; absent if it raises. */
  function PlainAnswer(fileType: FileType, state: Option<Json>, op: Op): seq<Option<Json>> {
    if op.Read? then [Opened(fileType, state)] else []
  }

  function PlainReads(fileType: FileType, state: Option<Json>, ops: seq<Op>): seq<Option<Json>> {
    if ops == [] then []
    else
      var front := ops[..|ops| - 1];
      PlainReads(fileType, state, front) + PlainAnswer(fileType, PlainFile(fileType, state, front), ops[|ops| - 1])
  }

  predicate Quiet(op: Op) { op.Read? || op.Scribble? || op.Abort? }

  lemma {:induction false} QuietKeepsContents(fileType: FileType, state: Option<Json>, ops: seq<Op>, n: nat)
    requires n <= |ops| && forall j :: n <= j < |ops| ==> Quiet(ops[j])
    ensures Opened(fileType, PlainFile(fileType, state, ops)) == Opened(fileType, PlainFile(fileType, state, ops[..n]))
    decreases |ops|
  {
    if n < |ops| {
      var front := ops[..|ops| - 1];
      QuietKeepsContents(fileType, state, front, n);
      assert front[..n] == ops[..n];
    } else {
      assert ops[..n] == ops;
    }
  }

  lemma LastAnswer(fileType: FileType, state: Option<Json>, ops: seq<Op>, created: StatKey)
    ensures PlainReads(fileType, state, ops + [Read(created)])
         == PlainReads(fileType, state, ops) + [Opened(fileType, PlainFile(fileType, state, ops))]
  {
    assert (ops + [Read(created)])[..|ops|] == ops;
  }

  /** What a read returns that comes after `ops`, by the last of them that could change the file:
      what another process wrote; what a write block made, if there was a file to open; and where
      the file has been removed, or never was, an error for the userdata file and an empty
      dictionary for the secrets file. */
  lemma ReadSeesLastChange(fileType: FileType, state: Option<Json>, ops: seq<Op>, i: nat, created: StatKey)
    requires i < |ops| && forall j :: i < j < |ops| ==> ops[j].Read? || ops[j].Scribble? || ops[j].Abort?
    ensures var answers := PlainReads(fileType, state, ops + [Read(created)]);
            var before := PlainFile(fileType, state, ops[..i]);
            && answers != []
            && var answer := answers[|answers| - 1];
            match ops[i]
            case ForeignWrite(contents, _) => answer == Some(contents)
            case ForeignRemove =>
              answer == if fileType == SECRETS then Some(Json(DICTIONARY, map[], map[])) else None
            case Commit(contents, _, _) =>
              answer == if before.Some? then Some(Json(before.value.kind, contents.leaves, contents.members))
                        else if fileType == SECRETS then Some(Json(DICTIONARY, contents.leaves, contents.members))
                        else None
            case _ => true
  {
    LastAnswer(fileType, state, ops, created);
    QuietKeepsContents(fileType, state, ops, i + 1);
    assert ops[..i + 1][..i] == ops[..i];
  }

  /** And what the first of all reads returns. */
  lemma FirstReadOpensTheFile(fileType: FileType, state: Option<Json>, created: StatKey)
    ensures PlainReads(fileType, state, [Read(created)]) == [
              if state.Some? then state
              else match fileType case USERDATA => None case SECRETS => Some(Json(DICTIONARY, map[], map[]))]
  {
    assert [Read(created)][..0] == [];
  }

  /** A file that is created, or written by another process, gets a stat key it never had. The
      process's own writes may leave the key as it was, or bring back an earlier one. */
  ghost predicate KeysAreNew(ops: seq<Op>, past: map<StatKey, Json>) {
    && (forall i :: 0 <= i < |ops| ==> NewKeys(ops[i]) !! past.Keys)
    && (forall i, j :: 0 <= i < j < |ops| ==> NewKeys(ops[j]) !! AllKeys(ops[i]))
  }

  /** One operation through the cache does to the file what it does without one. `handed` holds
      everything ever given out; `more` adds those given out now. */
  method Perform(cache: JsonFileCache, op: Op, ghost handed: set<Container>)
    returns (seen: seq<Option<Json>>, ghost more: set<Container>)
    requires cache.Valid() && cache.Apart(handed)
    requires NewKeys(op) !! cache.file.past.Keys
    modifies cache, cache.file, handed
    ensures cache.Valid() && cache.Apart(more)
    ensures handed <= more && fresh(more - handed)
    ensures cache.file.State() == PlainStep(cache.file.fileType, old(cache.file.State()), op)
    ensures seen == PlainAnswer(cache.file.fileType, old(cache.file.State()), op)
    ensures cache.file.past.Keys <= old(cache.file.past).Keys + AllKeys(op)
  {
    seen, more := [], handed;
    match op
    case Read(created) =>
      var r := cache.ReadUserData(created);
      if r.Ok? {
        seen, more := [Some(r.value.Value())], handed + r.value.Repr;
      } else {
        seen := [None];
      }
    case Scribble =>
      modify handed;
    case Commit(contents, created, written) =>
      var r := cache.BeginWrite(created);
      if r.Ok? {
        more := handed + r.value.Repr;
        r.value.Become(contents);
        more := more + r.value.Repr;
        cache.EndWrite(r.value, true, written);
      }
    case Abort(contents, created) =>
      var r := cache.BeginWrite(created);
      if r.Ok? {
        more := handed + r.value.Repr;
        r.value.Become(contents);
        more := more + r.value.Repr;
        cache.EndWrite(r.value, false, 0);
      }
    case ForeignWrite(contents, written) =>
      cache.file.Write(contents, written);
    case ForeignRemove =>
      cache.file.Remove();
  }

  /** The cache refines the plain file over every run: each read returns what is in the file at
      that moment, whatever is done, at any time and depth, to what was given out. */
  method Replay(cache: JsonFileCache, ops: seq<Op>, ghost handed: set<Container>)
    returns (answers: seq<Option<Json>>, ghost all: set<Container>)
    requires cache.Valid() && cache.Apart(handed)
    requires KeysAreNew(ops, cache.file.past)
    modifies cache, cache.file, handed
    ensures cache.Valid() && cache.Apart(all)
    ensures cache.file.State() == PlainFile(cache.file.fileType, old(cache.file.State()), ops)
    ensures answers == PlainReads(cache.file.fileType, old(cache.file.State()), ops)
  {
    answers, all := [], handed;
    ghost var start := cache.file.State();
    for i := 0 to |ops|
      invariant cache.Valid() && cache.Apart(all)
      invariant handed <= all && fresh(all - handed)
      invariant cache.file.State() == PlainFile(cache.file.fileType, start, ops[..i])
      invariant answers == PlainReads(cache.file.fileType, start, ops[..i])
      invariant forall j :: i <= j < |ops| ==> NewKeys(ops[j]) !! cache.file.past.Keys
    {
      assert ops[..i + 1][..i] == ops[..i];
      var seen: seq<Option<Json>>;
      seen, all := Perform(cache, ops[i], all);
      answers := answers + seen;
    }
    assert ops[..|ops|] == ops;
  }

  /** If another process does bring a key back, or leaves it, the change goes unnoticed: the reader
      gets what was cached under the key. */
  method SameKeyGoesUnnoticed(cache: JsonFileCache, contents: Json) returns (seen: Json)
    requires cache.Valid() && cache.Hit()
    modifies cache, cache.file
    ensures cache.file.State() == Some(contents)
    ensures seen == old(cache.file.contents)
  {
    cache.file.Write(contents, cache.key);
    var r := cache.ReadJsonCached();
    seen := r.value.Value();
  }
}
