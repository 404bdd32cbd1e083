/** go/internal/cmd/list.go: the memory listing and its table. */
module ListCmd {
  import opened Wrappers
  import opened StorageErrors
  import opened LocalStore
  import opened Storage
  import opened MemoryModel
  import opened CmdRoot
  import Text

  /** Every memory of `ms`, in order, with its `shared` field overwritten.
      runTaskList has the same loop for tasks (TaskCmd.TagTasks). */
  function TagMemories(ms: seq<Memory>, shared: bool): (r: seq<Memory>)
    ensures |r| == |ms|
    ensures forall i :: 0 <= i < |ms| ==> r[i] == ms[i].(shared := shared)
  {
    if ms == [] then [] else TagMemories(ms[..|ms| - 1], shared) + [ms[|ms| - 1].(shared := shared)]
  }

  /** The loops that set `m.Shared` and append each memory to the result. */
  method AppendTagged(acc: seq<Memory>, ms: seq<Memory>, shared: bool) returns (r: seq<Memory>)
    ensures r == acc + TagMemories(ms, shared)
  {
    r := acc;
    var i := 0;
    while i < |ms|
      invariant 0 <= i <= |ms|
      invariant r == acc + TagMemories(ms[..i], shared)
    {
      assert ms[..i + 1][..i] == ms[..i];
      r := r + [ms[i].(shared := shared)];
      i := i + 1;
    }
    assert ms[..i] == ms;
  }

  /** runList: local memories (unless only --shared is asked for) tagged
      local, then shared ones (with --all or --shared) tagged shared; an
      error from an included backend aborts the listing. */
  method RunList(store: MultiStorage, all: bool, sharedFlag: bool) returns (r: Result<seq<Memory>, CmdError>)
    ensures (all || !sharedFlag) && store.local.failing ==> r == Err(Failed(IoFailure))
    ensures !((all || !sharedFlag) && store.local.failing) ==>
              r == Ok(if all || !sharedFlag then TagMemories(MemoryListing(store.local.memories), false) else [])
  {
    var memories: seq<Memory> := [];
    if all || !sharedFlag {
      var local := store.local.ListMemories();
      if local.Err? {
        return Err(Failed(local.error));
      }
      memories := AppendTagged(memories, local.value, false);
      assert memories == TagMemories(MemoryListing(store.local.memories), false);
    }
    if all || sharedFlag {
      match store.shared.ListMemories() {
        case Err(e) =>
          return Err(Failed(e));
        case Ok(shared) =>
          var before := memories;
          memories := AppendTagged(memories, shared, true);
          assert memories == before;
      }
    }
    return Ok(memories);
  }

  /** One line of the memory table. */
  datatype MemoryRow = MemoryRow(id: string, title: string, kind: string, author: string)

  /** outputTable's row: titles over 45 characters become their first 42 and "...". */
  function MemoryRowOf(m: Memory): (row: MemoryRow)
    ensures row.id == m.id && row.author == m.author
    ensures |row.title| <= 45 && (|m.title| <= 45 ==> row.title == m.title)
    ensures |m.title| > 45 ==> |row.title| == 45 && Text.HasPrefix(m.title, row.title[..42]) && row.title[42..] == "..."
    ensures row.kind == (if m.shared then "[shared]" else "[local]")
  {
    MemoryRow(m.id, Text.Ellipsize(m.title, 45), if m.shared then "[shared]" else "[local]", m.author)
  }
}
