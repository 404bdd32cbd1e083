/** go/internal/cmd/add.go: build a memory from the flags, the arguments
    and the entered text, and write it to the selected backend. */
module AddCmd {
  import opened Wrappers
  import opened Clock
  import opened StorageErrors
  import opened LocalStore
  import opened Storage
  import opened MemoryModel
  import opened CmdRoot
  import opened Util
  import Text

  const Untitled: string := "Untitled"

  /** The title: the --title flag, else the arguments joined by spaces, else
      "Untitled"; it is never empty. */
  function AddTitle(titleFlag: string, args: seq<string>): (r: string)
    ensures r != ""
    ensures titleFlag != "" ==> r == titleFlag
    ensures titleFlag == "" && Text.Join(args, " ") != "" ==> r == Text.Join(args, " ")
    ensures titleFlag == "" && Text.Join(args, " ") == "" ==> r == Untitled
  {
    var title := if titleFlag == "" && |args| > 0 then Text.Join(args, " ") else titleFlag;
    if title == "" then Untitled else title
  }

  /** The content: the --message text, else the text read from stdin or the
      editor (`entered`, None when reading it failed), with surrounding
      white space removed. */
  function AddContent(message: string, entered: Option<string>): (r: Option<string>)
    ensures r.None? <==> message == "" && entered.None?
    ensures r.Some? ==> r.value == Text.TrimSpace(if message != "" then message else entered.value)
    ensures r.Some? ==> Text.TrimSpace(r.value) == r.value
  {
    if message != "" then
      Text.TrimSpaceIdempotent(message);
      Some(Text.TrimSpace(message))
    else if entered.Some? then
      Text.TrimSpaceIdempotent(entered.value);
      Some(Text.TrimSpace(entered.value))
    else None
  }

  /** runAdd: a new memory with the given tags and the shared flag, written
      to the backend --shared selects; a memory written locally reads back
      with its timestamps cut to whole seconds. */
  method RunAdd(store: MultiStorage, titleFlag: string, args: seq<string>, message: string, entered: Option<string>,
                tags: seq<string>, userName: string, sharedFlag: bool, random: seq<byte>, now: Instant)
    returns (r: Result<string, CmdError>)
    requires |random| == 4
    modifies store.local
    ensures AddContent(message, entered).None? ==> r == Err(InputFailed) && store.local.memories == old(store.local.memories)
    ensures AddContent(message, entered).Some? ==>
              var m := NewMemory(AddTitle(titleFlag, args), AddContent(message, entered).value, GetAuthorShort(userName),
                                 sharedFlag, random, now).(tags := tags);
              store.local.memories == MemoriesAfterWrite(old(store.local.memories), old(store.local.failing), Selected(sharedFlag), m)
              && r == (if WriteOutcome(old(store.local.failing), Selected(sharedFlag)).Fail? then Err(Failed(IoFailure)) else Ok(m.id))
              && (r.Ok? && !sharedFlag ==> store.local.ReadMemory(m.id) == Ok(Some(Persisted(m))))
    ensures store.local.tasks == old(store.local.tasks) && store.local.locks == old(store.local.locks)
    ensures store.local.failing == old(store.local.failing)
  {
    var title := AddTitle(titleFlag, args);
    var content := AddContent(message, entered);
    if content.None? {
      return Err(InputFailed);
    }
    var author := GetAuthorShort(userName);
    var m := NewMemory(title, content.value, author, sharedFlag, random, now);
    m := m.(tags := tags);
    var w := SaveMemory(store, Selected(sharedFlag), m);
    if w.Fail? {
      return Err(Failed(w.error));
    }
    return Ok(m.id);
  }
}
