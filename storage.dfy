/** go/internal/storage/storage.go: the pair of backends every command works
    against. The Go `Storage` interface has exactly two implementations; here
    they are the `LocalStorage` class and the `SharedStorage` value, and an
    `Origin` tag says which one a caller means. */
module Storage {
  import opened Wrappers
  import opened StorageErrors
  import opened LocalStore
  import opened SharedStore
  import opened MemoryModel
  import opened TaskModel
  import opened LockModel

  /** The backend an entry came from or goes to (the "local"/"shared" strings of the commands). */
  datatype Origin = Local | Shared

  /** MultiStorage: one local and one shared backend. */
  class MultiStorage {
    const local: LocalStorage
    const shared: SharedStorage

    constructor (local: LocalStorage, shared: SharedStorage)
      ensures this.local == local && this.shared == shared
    {
      this.local := local;
      this.shared := shared;
    }
  }

  /** NewMultiStorage: fails exactly when the local backend cannot be set up;
      the shared backend always can, so its error branch is never taken. */
  method NewMultiStorage(gitDir: string, digest: string -> string, mediumFailing: bool,
                         memories: map<string, MemoryDir>, tasks: map<string, Stored<TaskData>>,
                         locks: map<string, Stored<Lock>>)
    returns (r: Result<MultiStorage, StoreError>)
    requires IsDigestFunction(digest)
    ensures r.Err? <==> mediumFailing
    ensures r.Ok? ==> fresh(r.value) && fresh(r.value.local) && !r.value.local.failing
    ensures r.Ok? ==> r.value.local.memories == memories && r.value.local.tasks == tasks && r.value.local.locks == locks
    ensures r.Ok? ==> r.value.local.digest == digest && r.value.shared == SharedStorage(gitDir)
  {
    var local := NewLocalStorage(digest, mediumFailing, memories, tasks, locks);
    if local.Err? { return Err(local.error); }
    var shared := NewSharedStorage(gitDir);
    var store := new MultiStorage(local.value, shared.value);
    return Ok(store);
  }

  /** getStorage (go/internal/cmd/root.go): the shared backend when the
      --shared flag is set, otherwise the local one. */
  function Selected(sharedFlag: bool): (o: Origin)
    ensures o == Shared <==> sharedFlag
  {
    if sharedFlag then Shared else Local
  }
}
