/** What the command handlers of go/internal/cmd share: the errors they
    report, the backend a lookup found an entry in, and writing an entry
    back to a chosen backend (the `if storageType == "local"` blocks and
    getStorage of root.go). */
module CmdRoot {
  import opened Wrappers
  import opened Clock
  import opened StorageErrors
  import opened LocalStore
  import opened Storage
  import opened MemoryModel
  import opened TaskModel
  import opened LockModel

  /** The errors the commands return, one per message format. */
  datatype CmdError =
    | NotFoundId(id: string)                          // "not found: <id>"
    | AlreadyClaimedBy(owner: string)                 // "already claimed by <owner>"
    | NotOwnedBy(owner: string)                       // "not owned by you (owner: <owner>)"
    | AlreadyLockedBy(holder: string, expiresAt: Instant)  // "already locked by <holder> (expires: ...)"
    | CannotUnlock(holder: string)                    // "cannot unlock: owned by <holder>"
    | NotLocked(target: string)                       // "not locked: <target>"
    | InputFailed                                     // reading stdin or running the editor failed
    | Failed(cause: StoreError)                       // "failed to ...: <cause>"

  /** An entry and the backend it was found in. */
  datatype Found<T> = Found(entry: T, origin: Origin)

  /** findTask and findMemory: the local backend is asked first, and an error
      from either backend counts as "not there". */
  function FirstFound<T>(local: Result<Option<T>, StoreError>, shared: Result<Option<T>, StoreError>): (r: Option<Found<T>>)
    ensures r.None? <==> (local.Err? || local.value.None?) && (shared.Err? || shared.value.None?)
    ensures local.Ok? && local.value.Some? ==> r == Some(Found(local.value.value, Local))
    ensures r.Some? && r.value.origin == Shared ==> r.value.entry == shared.value.value
  {
    if local.Ok? && local.value.Some? then Some(Found(local.value.value, Local))
    else if shared.Ok? && shared.value.Some? then Some(Found(shared.value.value, Shared))
    else None
  }

  /** The outcome of writing to `origin`: only the local backend can fail. */
  function WriteOutcome(failing: bool, origin: Origin): Outcome<StoreError>
  {
    if origin == Local && failing then Fail(IoFailure) else Pass
  }

  /** A storage outcome as a command reports it ("failed to ...: %w"). */
  function Reported(w: Outcome<StoreError>): (r: Outcome<CmdError>)
    ensures r.Pass? <==> w.Pass?
    ensures r.Fail? ==> r.error == Failed(w.error)
  {
    match w
    case Pass => Pass
    case Fail(e) => Fail(Failed(e))
  }

  /** The task area after writing `v` to `origin`: the shared backend keeps nothing. */
  function TasksAfterWrite(tasks: map<string, Stored<TaskData>>, failing: bool, origin: Origin, v: TaskData): map<string, Stored<TaskData>>
  {
    if origin == Local && !failing then tasks[v.id := Intact(v)] else tasks
  }

  function MemoriesAfterWrite(memories: map<string, MemoryDir>, failing: bool, origin: Origin, m: Memory): map<string, MemoryDir>
  {
    if origin == Local && !failing then memories[m.id := EncodeMemory(m)] else memories
  }

  function LocksAfterWrite(locks: map<string, Stored<Lock>>, failing: bool, origin: Origin, digest: string -> string, l: Lock): map<string, Stored<Lock>>
  {
    if origin == Local && !failing then locks[digest(l.target) := Intact(l)] else locks
  }

  method SaveTask(store: MultiStorage, origin: Origin, t: Task) returns (r: Outcome<StoreError>)
    modifies store.local
    ensures r == WriteOutcome(old(store.local.failing), origin)
    ensures store.local.tasks == TasksAfterWrite(old(store.local.tasks), old(store.local.failing), origin, t.Value())
    ensures store.local.memories == old(store.local.memories) && store.local.locks == old(store.local.locks)
    ensures store.local.failing == old(store.local.failing)
  {
    if origin == Local {
      r := store.local.WriteTask(t);
    } else {
      r := store.shared.WriteTask(t.Value());
    }
  }

  method SaveMemory(store: MultiStorage, origin: Origin, m: Memory) returns (r: Outcome<StoreError>)
    modifies store.local
    ensures r == WriteOutcome(old(store.local.failing), origin)
    ensures store.local.memories == MemoriesAfterWrite(old(store.local.memories), old(store.local.failing), origin, m)
    ensures r.Pass? && origin == Local ==> store.local.ReadMemory(m.id) == Ok(Some(Persisted(m)))
    ensures store.local.tasks == old(store.local.tasks) && store.local.locks == old(store.local.locks)
    ensures store.local.failing == old(store.local.failing)
  {
    if origin == Local {
      r := store.local.WriteMemory(m);
    } else {
      r := store.shared.WriteMemory(m);
    }
  }

  method SaveLock(store: MultiStorage, origin: Origin, l: Lock) returns (r: Outcome<StoreError>)
    modifies store.local
    ensures r == WriteOutcome(old(store.local.failing), origin)
    ensures store.local.locks == LocksAfterWrite(old(store.local.locks), old(store.local.failing), origin, store.local.digest, l)
    ensures store.local.tasks == old(store.local.tasks) && store.local.memories == old(store.local.memories)
    ensures store.local.failing == old(store.local.failing)
  {
    if origin == Local {
      r := store.local.WriteLock(l);
    } else {
      r := store.shared.WriteLock(l);
    }
  }
}
