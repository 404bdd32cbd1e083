/** go/internal/cmd/edit.go: replace a memory's content with the edited text. */
module EditCmd {
  import opened Wrappers
  import opened Clock
  import opened StorageErrors
  import opened LocalStore
  import opened Storage
  import opened MemoryModel
  import opened CmdRoot
  import opened ShowCmd

  /** The memory after editing: the text replaces the content verbatim,
      untrimmed, and only the content and the update time change. */
  function Edited(m: Memory, text: string, now: Instant): (r: Memory)
    ensures r.content == text && r.updatedAt == now
    ensures r.(content := m.content, updatedAt := m.updatedAt) == m
  {
    m.(content := text, updatedAt := now)
  }

  /** runEdit: "not found" before the editor is started; then the editor's
      result (None when the temporary file or the editor fails) and the
      write back to the backend the memory was found in. */
  method RunEdit(store: MultiStorage, id: string, edited: Option<string>, now: Instant) returns (r: Outcome<CmdError>)
    modifies store.local
    ensures var loc := old(FindMemory(store, id));
            if loc.None? then r == Fail(NotFoundId(id)) && store.local.memories == old(store.local.memories)
            else if edited.None? then r == Fail(InputFailed) && store.local.memories == old(store.local.memories)
            else r == Reported(WriteOutcome(old(store.local.failing), loc.value.origin))
                 && store.local.memories == MemoriesAfterWrite(old(store.local.memories), old(store.local.failing),
                                                               loc.value.origin, Edited(loc.value.entry, edited.value, now))
    ensures store.local.tasks == old(store.local.tasks) && store.local.locks == old(store.local.locks)
    ensures store.local.failing == old(store.local.failing)
  {
    var found := FindMemory(store, id);
    if found.None? {
      return Fail(NotFoundId(id));
    }
    if edited.None? {
      return Fail(InputFailed);
    }
    var m := found.value.entry;
    m := m.(content := edited.value, updatedAt := now);
    var w := SaveMemory(store, found.value.origin, m);
    r := Reported(w);
  }
}
