/** go/internal/cmd/show.go: findMemory and runShow. */
module ShowCmd {
  import opened Wrappers
  import opened LocalStore
  import opened Storage
  import opened MemoryModel
  import opened CmdRoot

  /** findMemory: the local memory whenever the local read succeeds; the
      shared backend is asked only otherwise, and holds nothing. */
  function FindMemory(store: MultiStorage, id: string): (r: Option<Found<Memory>>)
    reads store.local
    ensures r.None? <==> store.local.ReadMemory(id).Err?
    ensures r.Some? ==> r.value == Found(store.local.ReadMemory(id).value.value, Local)
  {
    FirstFound(store.local.ReadMemory(id), store.shared.ReadMemory(id))
  }

  /** runShow: "not found: <id>" exactly when findMemory finds nothing. */
  function RunShow(store: MultiStorage, id: string): (r: Result<Found<Memory>, CmdError>)
    reads store.local
    ensures r.Err? <==> FindMemory(store, id).None?
    ensures r.Err? ==> r.error == NotFoundId(id)
    ensures r.Ok? ==> Some(r.value) == FindMemory(store, id)
  {
    match FindMemory(store, id)
    case None => Err(NotFoundId(id))
    case Some(f) => Ok(f)
  }
}
