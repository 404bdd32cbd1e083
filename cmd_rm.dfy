/** go/internal/cmd/rm.go: delete from the local backend first and fall
    back to the shared one only when that fails. */
module RmCmd {
  import opened Wrappers
  import opened StorageErrors
  import opened LocalStore
  import opened Storage
  import opened CmdRoot

  /** runRm: a local delete succeeds even for an unknown id, so the command
      reports a local removal unless the medium fails, and then the shared
      delete, which always succeeds, is reported. "not found" never comes. */
  method RunRm(store: MultiStorage, id: string) returns (r: Result<Origin, CmdError>)
    modifies store.local
    ensures !old(store.local.failing) ==> r == Ok(Local) && store.local.memories == old(store.local.memories) - {id}
    ensures old(store.local.failing) ==> r == Ok(Shared) && store.local.memories == old(store.local.memories)
    ensures store.local.tasks == old(store.local.tasks) && store.local.locks == old(store.local.locks)
    ensures store.local.failing == old(store.local.failing)
  {
    var local := store.local.DeleteMemory(id);
    if local.Pass? {
      return Ok(Local);
    }
    match store.shared.DeleteMemory(id) {
      case Pass =>
        return Ok(Shared);
      case Fail(_) =>
    }
    return Err(NotFoundId(id));
  }
}
