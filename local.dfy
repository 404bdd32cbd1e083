/** go/internal/storage/local.go: the private backend under `.git/context/`.
    Each storage area is a map from the name the file or directory carries to
    what it holds: memory directories by id (a meta.json record plus a
    content.md blob), task files by id, lock files by the digest of the
    target. A record that fails to decode is `Garbled`. `failing` stands for
    a medium on which every file-system call fails. */
module LocalStore {
  import opened Wrappers
  import opened StorageErrors
  import opened Clock
  import opened MemoryModel
  import opened TaskModel
  import opened LockModel
  import DirOrder
  import Util

  /** A JSON file: decodable to a `T`, or not. */
  datatype Stored<T> = Intact(value: T) | Garbled

  /** meta.json: every memory field except the content, timestamps as text. */
  datatype MemoryMeta = MemoryMeta(
    id: string, title: string, author: string, tags: seq<string>,
    createdAt: StampText, updatedAt: StampText, shared: bool)

  /** memory/<id>/: either file may be missing. */
  datatype MemoryDir = MemoryDir(meta: Option<Stored<MemoryMeta>>, content: Option<string>)

  /** What WriteMemory puts on disk for `m`. */
  function EncodeMemory(m: Memory): MemoryDir
  {
    MemoryDir(Some(Intact(MemoryMeta(m.id, m.title, m.author, m.tags,
                                     FormatTime(m.createdAt), FormatTime(m.updatedAt), m.shared))),
              Some(m.content))
  }

  /** What ReadMemory makes of a memory directory: it fails when meta.json or
      content.md is missing or meta.json does not decode; unparsable
      timestamps silently become the zero time. */
  function DecodeMemory(d: MemoryDir): (r: Result<Memory, StoreError>)
    ensures r.Err? <==> d.meta.None? || d.meta == Some(Garbled) || d.content.None?
    ensures r.Ok? ==> r.value.content == d.content.value && r.value.id == d.meta.value.value.id
  {
    match d.meta
    case None => Err(NotFound)
    case Some(Garbled) => Err(Malformed)
    case Some(Intact(meta)) =>
      match d.content
      case None => Err(NotFound)
      case Some(content) =>
        Ok(Memory(meta.id, meta.title, content, meta.author, meta.tags,
                  ParseTimeOrZero(meta.createdAt), ParseTimeOrZero(meta.updatedAt), meta.shared))
  }

  /** `m` as a later read returns it: timestamps cut to the second, or the zero time. */
  function Persisted(m: Memory): Memory
  {
    m.(createdAt := ParseTimeOrZero(FormatTime(m.createdAt)),
       updatedAt := ParseTimeOrZero(FormatTime(m.updatedAt)))
  }

  /** Writing a memory and reading it back returns the same id, title,
      content, author, tags and shared flag; each timestamp comes back
      truncated to the second, or as the zero time when its year needs more
      than four digits. */
  lemma MemoryRoundTrip(m: Memory)
    ensures DecodeMemory(EncodeMemory(m)) == Ok(Persisted(m))
    ensures Persisted(m).(createdAt := m.createdAt, updatedAt := m.updatedAt) == m
    ensures Formattable(m.createdAt) ==> Persisted(m).createdAt == TruncateToSecond(m.createdAt)
    ensures !Formattable(m.createdAt) ==> Persisted(m).createdAt == ZeroTime
    ensures Formattable(m.updatedAt) ==> Persisted(m).updatedAt == TruncateToSecond(m.updatedAt)
    ensures !Formattable(m.updatedAt) ==> Persisted(m).updatedAt == ZeroTime
  {
    StampRoundTrip(m.createdAt);
    StampRoundTrip(m.updatedAt);
  }

  /** The decodable memories among `names`, in that order. */
  function MemoryValues(names: seq<string>, area: map<string, MemoryDir>): seq<Memory>
  {
    if names == [] then []
    else
      var n := names[|names| - 1];
      MemoryValues(names[..|names| - 1], area) +
        (if n in area && DecodeMemory(area[n]).Ok? then [DecodeMemory(area[n]).value] else [])
  }

  /** One more name adds its memory, when it decodes, at the end. */
  lemma MemoryValuesSnoc(names: seq<string>, area: map<string, MemoryDir>, i: nat)
    requires i < |names| && names[i] in area
    ensures MemoryValues(names[..i + 1], area) == MemoryValues(names[..i], area) +
      (if DecodeMemory(area[names[i]]).Ok? then [DecodeMemory(area[names[i]]).value] else [])
  {
    assert names[..i + 1][..i] == names[..i];
  }

  /** The decodable records among `names`, in that order. */
  function IntactValues<T>(names: seq<string>, area: map<string, Stored<T>>): seq<T>
  {
    if names == [] then []
    else
      var n := names[|names| - 1];
      IntactValues(names[..|names| - 1], area) +
        (if n in area && area[n].Intact? then [area[n].value] else [])
  }

  /** What ListMemories returns: directories in name order, undecodable ones skipped. */
  ghost function MemoryListing(area: map<string, MemoryDir>): seq<Memory>
  {
    MemoryValues(DirOrder.SortedNames(area.Keys, ""), area)
  }

  /** What ListTasks returns: `<id>.json` files in name order, undecodable ones skipped. */
  ghost function TaskListing(area: map<string, Stored<TaskData>>): seq<TaskData>
  {
    IntactValues(DirOrder.SortedNames(area.Keys, ".json"), area)
  }

  /** What ListLocks returns: `<digest>.json` files in name order, undecodable ones skipped. */
  ghost function LockListing(area: map<string, Stored<Lock>>): seq<Lock>
  {
    IntactValues(DirOrder.SortedNames(area.Keys, ".json"), area)
  }

  /** The memories among `ms` that match `query`, in order: SearchMemories' filter. */
  function FilterMatches(ms: seq<Memory>, query: string): (r: seq<Memory>)
    ensures |r| <= |ms|
  {
    if ms == [] then []
    else
      FilterMatches(ms[..|ms| - 1], query) +
        (if ms[|ms| - 1].MatchesSearch(query) then [ms[|ms| - 1]] else [])
  }

  /** The search keeps exactly the memories that match. */
  lemma {:induction false} FilterMatchesMembers(ms: seq<Memory>, query: string)
    ensures forall m :: m in FilterMatches(ms, query) <==> m in ms && m.MatchesSearch(query)
  {
    if ms != [] {
      var init := ms[..|ms| - 1];
      FilterMatchesMembers(init, query);
      assert ms == init + [ms[|ms| - 1]];
    }
  }

  /** A record is listed exactly when some listed name holds it intact. */
  lemma {:induction false} IntactValuesMembers<T>(names: seq<string>, area: map<string, Stored<T>>)
    ensures forall v :: v in IntactValues(names, area) <==>
      exists i :: 0 <= i < |names| && names[i] in area && area[names[i]] == Intact(v)
    ensures |IntactValues(names, area)| <= |names|
  {
    if names != [] {
      var init := names[..|names| - 1];
      IntactValuesMembers(init, area);
      forall v ensures v in IntactValues(names, area) <==>
        exists i :: 0 <= i < |names| && names[i] in area && area[names[i]] == Intact(v)
      {
        if exists i :: 0 <= i < |names| && names[i] in area && area[names[i]] == Intact(v) {
          var i :| 0 <= i < |names| && names[i] in area && area[names[i]] == Intact(v);
          if i < |init| { assert init[i] == names[i]; }
        }
        if v in IntactValues(init, area) {
          var i :| 0 <= i < |init| && init[i] in area && area[init[i]] == Intact(v);
          assert names[i] == init[i];
        }
      }
    }
  }

  /** ListTasks returns precisely the decodable task records, whatever their file names. */
  lemma TaskListingComplete(area: map<string, Stored<TaskData>>)
    ensures forall t :: t in TaskListing(area) <==> exists id :: id in area && area[id] == Intact(t)
    ensures |TaskListing(area)| <= |area|
  {
    var names := DirOrder.SortedNames(area.Keys, ".json");
    IntactValuesMembers(names, area);
    DirOrder.SortedNamesMembers(area.Keys, ".json");
    forall t | exists id :: id in area && area[id] == Intact(t)
      ensures t in TaskListing(area)
    {
      var id :| id in area && area[id] == Intact(t);
      assert id in names;
      var i :| 0 <= i < |names| && names[i] == id;
    }
  }

  /** ListLocks returns precisely the decodable lock records. */
  lemma LockListingComplete(area: map<string, Stored<Lock>>)
    ensures forall l :: l in LockListing(area) <==> exists k :: k in area && area[k] == Intact(l)
    ensures |LockListing(area)| <= |area|
  {
    var names := DirOrder.SortedNames(area.Keys, ".json");
    IntactValuesMembers(names, area);
    DirOrder.SortedNamesMembers(area.Keys, ".json");
    forall l | exists k :: k in area && area[k] == Intact(l)
      ensures l in LockListing(area)
    {
      var k :| k in area && area[k] == Intact(l);
      assert k in names;
      var i :| 0 <= i < |names| && names[i] == k;
    }
  }

  /** Every task file is named after the id it holds (true of all files WriteTask writes). */
  ghost predicate TasksNamedById(area: map<string, Stored<TaskData>>)
  {
    forall id :: id in area && area[id].Intact? ==> area[id].value.id == id
  }

  /** After DeleteTask(id), ListTasks no longer shows a task with that id. */
  lemma DeletedTaskNotListed(area: map<string, Stored<TaskData>>, id: string)
    requires TasksNamedById(area)
    ensures forall t :: t in TaskListing(area - {id}) ==> t.id != id
  {
    TaskListingComplete(area - {id});
  }

  /** A memory is listed exactly when some listed directory decodes to it. */
  lemma {:induction false} MemoryValuesMembers(names: seq<string>, area: map<string, MemoryDir>)
    ensures forall m :: m in MemoryValues(names, area) <==>
      exists i :: 0 <= i < |names| && names[i] in area && DecodeMemory(area[names[i]]) == Ok(m)
  {
    if names != [] {
      var init := names[..|names| - 1];
      MemoryValuesMembers(init, area);
      forall m ensures m in MemoryValues(names, area) <==>
        exists i :: 0 <= i < |names| && names[i] in area && DecodeMemory(area[names[i]]) == Ok(m)
      {
        if exists i :: 0 <= i < |names| && names[i] in area && DecodeMemory(area[names[i]]) == Ok(m) {
          var i :| 0 <= i < |names| && names[i] in area && DecodeMemory(area[names[i]]) == Ok(m);
          if i < |init| { assert init[i] == names[i]; }
        }
        if m in MemoryValues(init, area) {
          var i :| 0 <= i < |init| && init[i] in area && DecodeMemory(area[init[i]]) == Ok(m);
          assert names[i] == init[i];
        }
      }
    }
  }

  /** ListMemories returns precisely the memories of the readable directories. */
  lemma MemoryListingComplete(area: map<string, MemoryDir>)
    ensures forall m :: m in MemoryListing(area) <==> exists id :: id in area && DecodeMemory(area[id]) == Ok(m)
  {
    var names := DirOrder.SortedNames(area.Keys, "");
    MemoryValuesMembers(names, area);
    DirOrder.SortedNamesMembers(area.Keys, "");
    forall m | exists id :: id in area && DecodeMemory(area[id]) == Ok(m)
      ensures m in MemoryListing(area)
    {
      var id :| id in area && DecodeMemory(area[id]) == Ok(m);
      assert id in names;
      var i :| 0 <= i < |names| && names[i] == id;
    }
  }

  /** Every memory directory is named after the id its meta.json holds. */
  ghost predicate MemoriesNamedById(area: map<string, MemoryDir>)
  {
    forall id :: id in area && DecodeMemory(area[id]).Ok? ==> DecodeMemory(area[id]).value.id == id
  }

  /** After DeleteMemory(id), ListMemories no longer shows a memory with that id. */
  lemma DeletedMemoryNotListed(area: map<string, MemoryDir>, id: string)
    requires MemoriesNamedById(area)
    ensures forall m :: m in MemoryListing(area - {id}) ==> m.id != id
  {
    MemoryListingComplete(area - {id});
  }

  /** Searching for the empty string returns the whole listing. */
  lemma {:induction false} EmptyQueryKeepsAll(ms: seq<Memory>)
    ensures FilterMatches(ms, "") == ms
  {
    if ms != [] {
      EmptyQueryKeepsAll(ms[..|ms| - 1]);
      EmptyQueryMatches(ms[|ms| - 1]);
      assert FilterMatches(ms, "") == FilterMatches(ms[..|ms| - 1], "") + [ms[|ms| - 1]];
      assert ms[..|ms| - 1] + [ms[|ms| - 1]] == ms;
    }
  }

  /** Every lock file is named after the digest of the target it holds. */
  ghost predicate LocksNamedByDigest(digest: string -> string, area: map<string, Stored<Lock>>)
  {
    forall k :: k in area && area[k].Intact? ==> digest(area[k].value.target) == k
  }

  /** A hash function of the shape hashTarget has: 16 lower-case hex characters. */
  ghost predicate IsDigestFunction(digest: string -> string)
  {
    forall t :: |digest(t)| == 16 && Util.IsHex(digest(t))
  }

  class LocalStorage {
    var memories: map<string, MemoryDir>
    var tasks: map<string, Stored<TaskData>>
    var locks: map<string, Stored<Lock>>
    var failing: bool
    /** hashTarget: the first 8 bytes of the target's SHA-256, in hex. */
    const digest: string -> string

    /** A backend over the areas as they already are on disk. */
    constructor (digest: string -> string, memories: map<string, MemoryDir>,
                 tasks: map<string, Stored<TaskData>>, locks: map<string, Stored<Lock>>)
      requires IsDigestFunction(digest)
      ensures this.digest == digest && !failing
      ensures this.memories == memories && this.tasks == tasks && this.locks == locks
    {
      this.digest := digest;
      this.memories, this.tasks, this.locks := memories, tasks, locks;
      this.failing := false;
    }

    // Memory operations

    method WriteMemory(m: Memory) returns (r: Outcome<StoreError>)
      modifies this
      ensures r == if old(failing) then Fail(IoFailure) else Pass
      ensures memories == if r.Fail? then old(memories) else old(memories)[m.id := EncodeMemory(m)]
      ensures tasks == old(tasks) && locks == old(locks) && failing == old(failing)
      ensures r.Pass? ==> ReadMemory(m.id) == Ok(Some(Persisted(m)))
      ensures MemoriesNamedById(old(memories)) ==> MemoriesNamedById(memories)
    {
      if failing { return Fail(IoFailure); }
      memories := memories[m.id := EncodeMemory(m)];
      MemoryRoundTrip(m);
      return Pass;
    }

    /** ReadMemory: the directory's memory, or the reason it cannot be read. */
    function ReadMemory(id: string): (r: Result<Option<Memory>, StoreError>)
      reads this
      ensures r.Ok? <==> !failing && id in memories && DecodeMemory(memories[id]).Ok?
      ensures r.Ok? ==> r.value == Some(DecodeMemory(memories[id]).value)
      ensures r.Err? && !failing && id in memories ==> r.error == DecodeMemory(memories[id]).error
    {
      if failing then Err(IoFailure)
      else if id !in memories then Err(NotFound)
      else match DecodeMemory(memories[id])
        case Ok(m) => Ok(Some(m))
        case Err(e) => Err(e)
    }

    method ListMemories() returns (r: Result<seq<Memory>, StoreError>)
      ensures r == if failing then Err(IoFailure) else Ok(MemoryListing(memories))
    {
      if failing { return Err(IoFailure); }
      var names := DirOrder.ReadDir(memories.Keys, "");
      var ms: seq<Memory> := [];
      for i := 0 to |names|
        invariant ms == MemoryValues(names[..i], memories)
      {
        DirOrder.SortedNameMember(memories.Keys, "", i);
        MemoryValuesSnoc(names, memories, i);
        var m := ReadMemory(names[i]);
        if m.Ok? {
          ms := ms + [m.value.value];
        }
      }
      assert names[..|names|] == names;
      return Ok(ms);
    }

    /** DeleteMemory: removes the directory; an absent id is not an error (`os.RemoveAll`). */
    method DeleteMemory(id: string) returns (r: Outcome<StoreError>)
      modifies this
      ensures r == if old(failing) then Fail(IoFailure) else Pass
      ensures memories == if r.Fail? then old(memories) else old(memories) - {id}
      ensures tasks == old(tasks) && locks == old(locks) && failing == old(failing)
    {
      if failing { return Fail(IoFailure); }
      memories := memories - {id};
      return Pass;
    }

    method SearchMemories(query: string) returns (r: Result<seq<Memory>, StoreError>)
      ensures r == if failing then Err(IoFailure) else Ok(FilterMatches(MemoryListing(memories), query))
    {
      var listed := ListMemories();
      if listed.Err? { return Err(listed.error); }
      var ms := listed.value;
      var results: seq<Memory> := [];
      for i := 0 to |ms|
        invariant results == FilterMatches(ms[..i], query)
      {
        assert ms[..i + 1][..i] == ms[..i];
        if ms[i].MatchesSearch(query) {
          results := results + [ms[i]];
        }
      }
      assert ms[..|ms|] == ms;
      return Ok(results);
    }

    // Task operations

    /** WriteTask: creates or replaces `<t.id>.json` with every field of `t`. */
    method WriteTask(t: TaskModel.Task) returns (r: Outcome<StoreError>)
      modifies this
      ensures r == if old(failing) then Fail(IoFailure) else Pass
      ensures tasks == if r.Fail? then old(tasks) else old(tasks)[t.id := Intact(t.Value())]
      ensures memories == old(memories) && locks == old(locks) && failing == old(failing)
      ensures r.Pass? ==> TaskRecord(t.id) == Ok(t.Value())
      ensures TasksNamedById(old(tasks)) ==> TasksNamedById(tasks)
    {
      if failing { return Fail(IoFailure); }
      tasks := tasks[t.id := Intact(t.Value())];
      return Pass;
    }

    /** The record in `<id>.json`, or why it cannot be read. */
    function TaskRecord(id: string): (r: Result<TaskData, StoreError>)
      reads this
      ensures r.Ok? <==> !failing && id in tasks && tasks[id].Intact?
      ensures r.Ok? ==> r.value == tasks[id].value
    {
      if failing then Err(IoFailure)
      else if id !in tasks then Err(NotFound)
      else match tasks[id]
        case Intact(t) => Ok(t)
        case Garbled => Err(Malformed)
    }

    /** ReadTask: a fresh task object decoded from `<id>.json`. */
    method ReadTask(id: string) returns (r: Result<Option<TaskModel.Task>, StoreError>)
      ensures r.Err? <==> TaskRecord(id).Err?
      ensures r.Err? ==> r.error == TaskRecord(id).error
      ensures r.Ok? ==> r.value.Some? && fresh(r.value.value) && r.value.value.Value() == TaskRecord(id).value
    {
      var rec := TaskRecord(id);
      if rec.Err? { return Err(rec.error); }
      var t := new TaskModel.Task.Decode(rec.value);
      return Ok(Some(t));
    }

    method ListTasks() returns (r: Result<seq<TaskData>, StoreError>)
      ensures r == if failing then Err(IoFailure) else Ok(TaskListing(tasks))
    {
      if failing { return Err(IoFailure); }
      var names := DirOrder.ReadDir(tasks.Keys, ".json");
      var ts: seq<TaskData> := [];
      for i := 0 to |names|
        invariant ts == IntactValues(names[..i], tasks)
      {
        assert names[..i + 1][..i] == names[..i];
        DirOrder.SortedNameMember(tasks.Keys, ".json", i);
        var rec := TaskRecord(names[i]);
        assert IntactValues(names[..i + 1], tasks) ==
          IntactValues(names[..i], tasks) + (if rec.Ok? then [rec.value] else []);
        if rec.Ok? {
          ts := ts + [rec.value];
        }
      }
      assert names[..|names|] == names;
      return Ok(ts);
    }

    /** UpdateTask: read, mutate, write back under the mutated record's id;
        nothing is written when the read or the mutator fails. */
    method UpdateTask(id: string, mutate: TaskData -> Result<TaskData, string>) returns (r: Outcome<StoreError>)
      modifies this
      ensures old(TaskRecord(id)).Err? ==> r == Fail(old(TaskRecord(id)).error) && tasks == old(tasks)
      ensures old(TaskRecord(id)).Ok? && mutate(old(TaskRecord(id)).value).Err? ==>
        r == Fail(Rejected(mutate(old(TaskRecord(id)).value).error)) && tasks == old(tasks)
      ensures old(TaskRecord(id)).Ok? && mutate(old(TaskRecord(id)).value).Ok? ==>
        r == Pass && tasks == old(tasks)[mutate(old(TaskRecord(id)).value).value.id := Intact(mutate(old(TaskRecord(id)).value).value)]
      ensures memories == old(memories) && locks == old(locks) && failing == old(failing)
    {
      var rec := TaskRecord(id);
      if rec.Err? { return Fail(rec.error); }
      var mutated := mutate(rec.value);
      if mutated.Err? { return Fail(Rejected(mutated.error)); }
      tasks := tasks[mutated.value.id := Intact(mutated.value)];
      return Pass;
    }

    /** DeleteTask: fails when `<id>.json` does not exist (`os.Remove`). */
    method DeleteTask(id: string) returns (r: Outcome<StoreError>)
      modifies this
      ensures r == if old(failing) then Fail(IoFailure) else if id !in old(tasks) then Fail(NotFound) else Pass
      ensures tasks == if r.Fail? then old(tasks) else old(tasks) - {id}
      ensures memories == old(memories) && locks == old(locks) && failing == old(failing)
    {
      if failing { return Fail(IoFailure); }
      if id !in tasks { return Fail(NotFound); }
      tasks := tasks - {id};
      return Pass;
    }

    // Lock operations

    /** WriteLock: creates or replaces the lock file of `l.target`. */
    method WriteLock(l: Lock) returns (r: Outcome<StoreError>)
      modifies this
      ensures r == if old(failing) then Fail(IoFailure) else Pass
      ensures locks == if r.Fail? then old(locks) else old(locks)[digest(l.target) := Intact(l)]
      ensures memories == old(memories) && tasks == old(tasks) && failing == old(failing)
      ensures r.Pass? ==> ReadLock(l.target) == Ok(Some(l))
      ensures LocksNamedByDigest(digest, old(locks)) ==> LocksNamedByDigest(digest, locks)
    {
      if failing { return Fail(IoFailure); }
      locks := locks[digest(l.target) := Intact(l)];
      return Pass;
    }

    /** ReadLock: the lock in the file named by the target's digest. */
    function ReadLock(target: string): (r: Result<Option<Lock>, StoreError>)
      reads this
      ensures r.Ok? <==> !failing && digest(target) in locks && locks[digest(target)].Intact?
      ensures r.Ok? ==> r.value == Some(locks[digest(target)].value)
    {
      if failing then Err(IoFailure)
      else if digest(target) !in locks then Err(NotFound)
      else match locks[digest(target)]
        case Intact(l) => Ok(Some(l))
        case Garbled => Err(Malformed)
    }

    method ListLocks() returns (r: Result<seq<Lock>, StoreError>)
      ensures r == if failing then Err(IoFailure) else Ok(LockListing(locks))
    {
      if failing { return Err(IoFailure); }
      var names := DirOrder.ReadDir(locks.Keys, ".json");
      var ls: seq<Lock> := [];
      for i := 0 to |names|
        invariant ls == IntactValues(names[..i], locks)
      {
        assert names[..i + 1][..i] == names[..i];
        DirOrder.SortedNameMember(locks.Keys, ".json", i);
        assert IntactValues(names[..i + 1], locks) ==
          IntactValues(names[..i], locks) + (if locks[names[i]].Intact? then [locks[names[i]].value] else []);
        if locks[names[i]].Intact? {
          ls := ls + [locks[names[i]].value];
        }
      }
      assert names[..|names|] == names;
      return Ok(ls);
    }

    /** DeleteLock: fails when the target has no lock file. */
    method DeleteLock(target: string) returns (r: Outcome<StoreError>)
      modifies this
      ensures r == if old(failing) then Fail(IoFailure) else if digest(target) !in old(locks) then Fail(NotFound) else Pass
      ensures locks == if r.Fail? then old(locks) else old(locks) - {digest(target)}
      ensures memories == old(memories) && tasks == old(tasks) && failing == old(failing)
    {
      if failing { return Fail(IoFailure); }
      if digest(target) !in locks { return Fail(NotFound); }
      locks := locks - {digest(target)};
      return Pass;
    }
  }

  /** NewLocalStorage: fails when the three areas cannot be created. */
  method NewLocalStorage(digest: string -> string, mediumFailing: bool, memories: map<string, MemoryDir>,
                         tasks: map<string, Stored<TaskData>>, locks: map<string, Stored<Lock>>)
    returns (r: Result<LocalStorage, StoreError>)
    requires IsDigestFunction(digest)
    ensures r.Err? <==> mediumFailing
    ensures r.Ok? ==> fresh(r.value) && !r.value.failing && r.value.digest == digest
    ensures r.Ok? ==> r.value.memories == memories && r.value.tasks == tasks && r.value.locks == locks
  {
    if mediumFailing { return Err(IoFailure); }
    var s := new LocalStorage(digest, memories, tasks, locks);
    return Ok(s);
  }
}
