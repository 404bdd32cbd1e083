/** go/internal/storage/shared.go: the shared backend as it stands, a stub.
    Every write reports success and keeps nothing, every read finds nothing,
    every list is empty, every delete succeeds, and UpdateTask never calls
    its mutator. Only the unused repository path is held. */
module SharedStore {
  import opened Wrappers
  import opened MemoryModel
  import opened TaskModel
  import opened LockModel
  import opened StorageErrors

  datatype SharedStorage = SharedStorage(repoPath: string)
  {
    function WriteMemory(m: Memory): Outcome<StoreError> { Pass }
    function ReadMemory(id: string): Result<Option<Memory>, StoreError> { Ok(None) }
    function ListMemories(): Result<seq<Memory>, StoreError> { Ok([]) }
    function DeleteMemory(id: string): Outcome<StoreError> { Pass }
    function SearchMemories(query: string): Result<seq<Memory>, StoreError> { Ok([]) }

    function WriteTask(t: TaskData): Outcome<StoreError> { Pass }
    function ReadTask(id: string): Result<Option<TaskData>, StoreError> { Ok(None) }
    function ListTasks(): Result<seq<TaskData>, StoreError> { Ok([]) }
    function UpdateTask(id: string, mutate: TaskData -> Result<TaskData, string>): Outcome<StoreError> { Pass }
    function DeleteTask(id: string): Outcome<StoreError> { Pass }

    function WriteLock(l: Lock): Outcome<StoreError> { Pass }
    function ReadLock(target: string): Result<Option<Lock>, StoreError> { Ok(None) }
    function ListLocks(): Result<seq<Lock>, StoreError> { Ok([]) }
    function DeleteLock(target: string): Outcome<StoreError> { Pass }
  }

  /** NewSharedStorage never fails. */
  function NewSharedStorage(gitDir: string): (r: Result<SharedStorage, StoreError>)
    ensures r.Ok? && r.value.repoPath == gitDir
  {
    Ok(SharedStorage(gitDir))
  }

  /** A write to the shared backend succeeds, yet reading the same key
      afterwards still finds nothing, and listings stay empty. */
  lemma WritesPersistNothing(s: SharedStorage, m: Memory, t: TaskData, l: Lock)
    ensures s.WriteMemory(m).Pass? && s.ReadMemory(m.id) == Ok(None) && s.ListMemories() == Ok([])
    ensures s.WriteTask(t).Pass? && s.ReadTask(t.id) == Ok(None) && s.ListTasks() == Ok([])
    ensures s.WriteLock(l).Pass? && s.ReadLock(l.target) == Ok(None) && s.ListLocks() == Ok([])
  {
  }

  /** Reads and searches find nothing and report no error, for every key and query. */
  lemma ReadsFindNothing(s: SharedStorage, id: string, query: string)
    ensures s.ReadMemory(id) == Ok(None) && s.ReadTask(id) == Ok(None) && s.ReadLock(id) == Ok(None)
    ensures s.SearchMemories(query) == Ok([])
  {
  }

  /** UpdateTask succeeds whatever the mutator would do, and every delete succeeds for any key. */
  lemma UpdatesAndDeletesSucceed(s: SharedStorage, id: string, mutate: TaskData -> Result<TaskData, string>)
    ensures s.UpdateTask(id, mutate).Pass?
    ensures s.DeleteMemory(id).Pass? && s.DeleteTask(id).Pass? && s.DeleteLock(id).Pass?
  {
  }
}
