/** go/internal/cmd/task.go: the `task` subcommands. Each handler that
    changes a task finds it (local backend first), applies one transition
    to the task object and writes it back to the backend it came from. */
module TaskCmd {
  import opened Wrappers
  import opened Clock
  import opened StorageErrors
  import opened LocalStore
  import opened Storage
  import opened TaskModel
  import opened CmdRoot
  import opened Util
  import Text

  /** findTask, read as a value: the local record when it can be read,
      otherwise whatever the shared backend holds for `id`. */
  function LocateTask(store: MultiStorage, id: string): (r: Option<Found<TaskData>>)
    reads store.local
    ensures r.None? <==> store.local.TaskRecord(id).Err?
    ensures r.Some? ==> r.value == Found(store.local.TaskRecord(id).value, Local)
  {
    var local := store.local.TaskRecord(id);
    FirstFound(if local.Ok? then Ok(Some(local.value)) else Err(local.error), store.shared.ReadTask(id))
  }

  /** A fresh task object holding `v` (json.Unmarshal into a new Task): the
      shared branch of findTask decodes the record it read. */
  method Decoded(v: TaskData) returns (t: Task)
    ensures fresh(t) && t.Value() == v
  {
    t := new Task.Decode(v);
  }

  /** findTask: a fresh task object holding the located record, tagged with its backend. */
  method FindTask(store: MultiStorage, id: string) returns (r: Option<Found<Task>>)
    ensures r.None? <==> LocateTask(store, id).None?
    ensures r.Some? ==> fresh(r.value.entry) && r.value.origin == LocateTask(store, id).value.origin
    ensures r.Some? ==> r.value.entry.Value() == LocateTask(store, id).value.entry
  {
    var local := store.local.ReadTask(id);
    if local.Ok? && local.value.Some? {
      return Some(Found(local.value.value, Local));
    }
    match store.shared.ReadTask(id) {
      case Ok(Some(v)) =>
        var t := Decoded(v);
        r := Some(Found(t, Shared));
      case _ =>
        r := None;
    }
  }

  /** The claim a user asks for: refused exactly when someone else holds the
      task; otherwise the caller becomes owner, whatever the status was. */
  function ClaimStep(t: TaskData, author: string, now: Instant): (r: Result<TaskData, CmdError>)
    ensures r.Err? <==> t.status == StatusClaimed && t.owner != author
    ensures r.Err? ==> r.error == AlreadyClaimedBy(t.owner)
    ensures r.Ok? ==> r.value == t.(owner := author, status := StatusClaimed, updatedAt := now)
  {
    if t.status == StatusClaimed && t.owner != author then Err(AlreadyClaimedBy(t.owner))
    else Ok(t.(owner := author, status := StatusClaimed, updatedAt := now))
  }

  /** The drop a user asks for: refused unless the caller is the owner. */
  function DropStep(t: TaskData, author: string, now: Instant): (r: Result<TaskData, CmdError>)
    ensures r.Err? <==> t.owner != author
    ensures r.Err? ==> r.error == NotOwnedBy(t.owner)
    ensures r.Ok? ==> r.value == t.(owner := "", status := StatusOpen, updatedAt := now)
  {
    if t.owner != author then Err(NotOwnedBy(t.owner))
    else Ok(t.(owner := "", status := StatusOpen, updatedAt := now))
  }

  /** `task done` has no guard: anyone may finish any task, in any status. */
  function DoneStep(t: TaskData, now: Instant): (r: Result<TaskData, CmdError>)
    ensures r.Ok? && r.value.status == StatusDone && r.value.doneAt == Some(now) && r.value.updatedAt == now
    ensures r.Ok? && r.value.(status := t.status, doneAt := t.doneAt, updatedAt := t.updatedAt) == t
  {
    Ok(t.(status := StatusDone, doneAt := Some(now), updatedAt := now))
  }

  /** `task comment` has no guard either: the comment is appended last. */
  function CommentStep(t: TaskData, author: string, message: string, now: Instant): (r: Result<TaskData, CmdError>)
    ensures r.Ok? && |r.value.comments| == |t.comments| + 1 && r.value.comments[..|t.comments|] == t.comments
    ensures r.Ok? && r.value.comments[|t.comments|] == Comment(author, message, now) && r.value.updatedAt == now
    ensures r.Ok? && r.value.(comments := t.comments, updatedAt := t.updatedAt) == t
  {
    Ok(t.(comments := t.comments + [Comment(author, message, now)], updatedAt := now))
  }

  /** What a task command returns and leaves in the local task area: not
      found, the step's refusal, or the stepped task written back to the
      backend it was found in. */
  function TaskCommand(id: string, loc: Option<Found<TaskData>>, step: TaskData -> Result<TaskData, CmdError>,
                       tasks: map<string, Stored<TaskData>>, failing: bool): (Outcome<CmdError>, map<string, Stored<TaskData>>)
  {
    match loc
    case None => (Fail(NotFoundId(id)), tasks)
    case Some(Found(t, origin)) =>
      match step(t)
      case Err(e) => (Fail(e), tasks)
      case Ok(t') =>
        (Reported(WriteOutcome(failing, origin)), TasksAfterWrite(tasks, failing, origin, t'))
  }

  /** A command that fails leaves the task area as it was; one that succeeds
      on a local task leaves exactly the stepped record under its id. */
  lemma TaskCommandAtomic(id: string, loc: Option<Found<TaskData>>, step: TaskData -> Result<TaskData, CmdError>,
                          tasks: map<string, Stored<TaskData>>, failing: bool)
    ensures TaskCommand(id, loc, step, tasks, failing).0.Fail? ==> TaskCommand(id, loc, step, tasks, failing).1 == tasks
    ensures TaskCommand(id, loc, step, tasks, failing).0.Pass? <==> loc.Some? && step(loc.value.entry).Ok? && !(loc.value.origin == Local && failing)
    ensures TaskCommand(id, loc, step, tasks, failing).0.Pass? && loc.value.origin == Local ==>
              TaskCommand(id, loc, step, tasks, failing).1 == tasks[step(loc.value.entry).value.id := Intact(step(loc.value.entry).value)]
  {
  }

  /** Claiming is exclusive: once A holds a task, B's claim is refused and
      A's own claim goes through again. */
  lemma ClaimIsExclusive(t: TaskData, a: string, b: string, now: Instant, later: Instant)
    requires ClaimStep(t, a, now).Ok?
    ensures ClaimStep(ClaimStep(t, a, now).value, b, later).Err? <==> b != a
  {
  }

  /** Nobody can drop a task nobody owns: the caller's name is never empty. */
  lemma UnownedTaskCannotBeDropped(t: TaskData, userName: string, now: Instant)
    requires t.owner == ""
    ensures DropStep(t, GetAuthorShort(userName), now) == Err(NotOwnedBy(""))
  {
  }

  /** Claim then drop by the same user reopens the task with no owner. */
  lemma ClaimThenDropReopens(t: TaskData, a: string, now: Instant, later: Instant)
    requires ClaimStep(t, a, now).Ok?
    ensures DropStep(ClaimStep(t, a, now).value, a, later) ==
              Ok(t.(owner := "", status := StatusOpen, updatedAt := later))
  {
  }

  method RunTaskClaim(store: MultiStorage, id: string, userName: string, now: Instant) returns (r: Outcome<CmdError>)
    modifies store.local
    ensures (r, store.local.tasks) == TaskCommand(id, old(LocateTask(store, id)), t => ClaimStep(t, GetAuthorShort(userName), now),
                                                  old(store.local.tasks), old(store.local.failing))
    ensures store.local.memories == old(store.local.memories) && store.local.locks == old(store.local.locks)
    ensures store.local.failing == old(store.local.failing)
  {
    var author := GetAuthorShort(userName);
    var found := FindTask(store, id);
    if found.None? {
      return Fail(NotFoundId(id));
    }
    var t := found.value.entry;
    if t.status == StatusClaimed && t.owner != author {
      return Fail(AlreadyClaimedBy(t.owner));
    }
    t.Claim(author, now);
    var w := SaveTask(store, found.value.origin, t);
    r := Reported(w);
  }

  method RunTaskDrop(store: MultiStorage, id: string, userName: string, now: Instant) returns (r: Outcome<CmdError>)
    modifies store.local
    ensures (r, store.local.tasks) == TaskCommand(id, old(LocateTask(store, id)), t => DropStep(t, GetAuthorShort(userName), now),
                                                  old(store.local.tasks), old(store.local.failing))
    ensures store.local.memories == old(store.local.memories) && store.local.locks == old(store.local.locks)
    ensures store.local.failing == old(store.local.failing)
  {
    var author := GetAuthorShort(userName);
    var found := FindTask(store, id);
    if found.None? {
      return Fail(NotFoundId(id));
    }
    var t := found.value.entry;
    if t.owner != author {
      return Fail(NotOwnedBy(t.owner));
    }
    t.Drop(now);
    var w := SaveTask(store, found.value.origin, t);
    r := Reported(w);
  }

  method RunTaskDone(store: MultiStorage, id: string, now: Instant) returns (r: Outcome<CmdError>)
    modifies store.local
    ensures (r, store.local.tasks) == TaskCommand(id, old(LocateTask(store, id)), t => DoneStep(t, now),
                                                  old(store.local.tasks), old(store.local.failing))
    ensures store.local.memories == old(store.local.memories) && store.local.locks == old(store.local.locks)
    ensures store.local.failing == old(store.local.failing)
  {
    var found := FindTask(store, id);
    if found.None? {
      return Fail(NotFoundId(id));
    }
    var t := found.value.entry;
    t.Done(now);
    var w := SaveTask(store, found.value.origin, t);
    r := Reported(w);
  }

  method RunTaskComment(store: MultiStorage, id: string, message: string, userName: string, now: Instant) returns (r: Outcome<CmdError>)
    modifies store.local
    ensures (r, store.local.tasks) == TaskCommand(id, old(LocateTask(store, id)), t => CommentStep(t, GetAuthorShort(userName), message, now),
                                                  old(store.local.tasks), old(store.local.failing))
    ensures store.local.memories == old(store.local.memories) && store.local.locks == old(store.local.locks)
    ensures store.local.failing == old(store.local.failing)
  {
    var author := GetAuthorShort(userName);
    var found := FindTask(store, id);
    if found.None? {
      return Fail(NotFoundId(id));
    }
    var t := found.value.entry;
    t.AddComment(author, message, now);
    var w := SaveTask(store, found.value.origin, t);
    r := Reported(w);
  }

  /** `task add`: the arguments joined by spaces become the title, and the
      new task goes to the backend --shared selects. */
  method RunTaskAdd(store: MultiStorage, args: seq<string>, description: string, userName: string,
                    sharedFlag: bool, random: seq<byte>, now: Instant) returns (r: Result<string, CmdError>)
    requires |args| >= 1 && |random| == 4
    modifies store.local
    ensures var v := TaskData(TaskIdPrefix + GenerateID(random), Text.Join(args, " "), description, StatusOpen, "",
                              GetAuthorShort(userName), now, now, None, [], [], [], sharedFlag);
            store.local.tasks == TasksAfterWrite(old(store.local.tasks), old(store.local.failing), Selected(sharedFlag), v)
            && r == (if WriteOutcome(old(store.local.failing), Selected(sharedFlag)).Fail? then Err(Failed(IoFailure)) else Ok(v.id))
    ensures store.local.memories == old(store.local.memories) && store.local.locks == old(store.local.locks)
    ensures store.local.failing == old(store.local.failing)
  {
    var title := Text.Join(args, " ");
    var author := GetAuthorShort(userName);
    var t := new Task.New(title, description, author, sharedFlag, random, now);
    var w := SaveTask(store, Selected(sharedFlag), t);
    if w.Fail? {
      return Err(Failed(w.error));
    }
    return Ok(t.id);
  }

  /** Every task of `ts`, in order, with its `shared` field overwritten.
      runTaskList repeats, for tasks, the tagging loop runList has for
      memories (ListCmd.TagMemories); the two are kept as separate members
      because the Go code has two separate loops over two record types. */
  function TagTasks(ts: seq<TaskData>, shared: bool): (r: seq<TaskData>)
    ensures |r| == |ts|
    ensures forall i :: 0 <= i < |ts| ==> r[i] == ts[i].(shared := shared)
  {
    if ts == [] then [] else TagTasks(ts[..|ts| - 1], shared) + [ts[|ts| - 1].(shared := shared)]
  }

  /** The loops of runTaskList that append one backend's tasks. */
  method AppendTagged(acc: seq<TaskData>, ts: seq<TaskData>, shared: bool) returns (r: seq<TaskData>)
    ensures r == acc + TagTasks(ts, shared)
  {
    r := acc;
    var i := 0;
    while i < |ts|
      invariant 0 <= i <= |ts|
      invariant r == acc + TagTasks(ts[..i], shared)
    {
      assert ts[..i + 1][..i] == ts[..i];
      r := r + [ts[i].(shared := shared)];
      i := i + 1;
    }
    assert ts[..i] == ts;
  }

  /** `task list`: local tasks (unless only --shared is asked for) tagged
      local, then shared tasks (with --all or --shared) tagged shared. A
      listing error aborts the command. */
  method RunTaskList(store: MultiStorage, all: bool, sharedFlag: bool) returns (r: Result<seq<TaskData>, CmdError>)
    ensures (all || !sharedFlag) && store.local.failing ==> r == Err(Failed(IoFailure))
    ensures !((all || !sharedFlag) && store.local.failing) ==>
              r == Ok(if all || !sharedFlag then TagTasks(TaskListing(store.local.tasks), false) else [])
  {
    var tasks: seq<TaskData> := [];
    if all || !sharedFlag {
      var local := store.local.ListTasks();
      if local.Err? {
        return Err(Failed(local.error));
      }
      tasks := AppendTagged(tasks, local.value, false);
      assert tasks == TagTasks(TaskListing(store.local.tasks), false);
    }
    if all || sharedFlag {
      match store.shared.ListTasks() {
        case Err(e) =>
          return Err(Failed(e));
        case Ok(shared) =>
          var before := tasks;
          tasks := AppendTagged(tasks, shared, true);
          assert tasks == before;
      }
    }
    return Ok(tasks);
  }

  /** One line of the `task list` table. */
  datatype TaskRow = TaskRow(id: string, title: string, status: string, kind: string, owner: string)

  /** A table row: titles over 35 characters are cut to 32 plus "...", a
      missing owner shows as "-". */
  function TaskRowOf(t: TaskData): (row: TaskRow)
    ensures row.id == t.id && row.status == "[" + t.status + "]"
    ensures |row.title| <= 35 && (|t.title| <= 35 ==> row.title == t.title)
    ensures |t.title| > 35 ==> |row.title| == 35 && Text.HasPrefix(t.title, row.title[..32]) && row.title[32..] == "..."
    ensures row.owner == (if t.owner == "" then "-" else t.owner)
    ensures row.kind == (if t.shared then "[shared]" else "[local]")
  {
    TaskRow(t.id, Text.Ellipsize(t.title, 35), "[" + t.status + "]",
            if t.shared then "[shared]" else "[local]", if t.owner == "" then "-" else t.owner)
  }

  /** `task show`: the task findTask locates, or "not found". */
  function RunTaskShow(store: MultiStorage, id: string): (r: Result<Found<TaskData>, CmdError>)
    reads store.local
    ensures r.Err? <==> store.local.TaskRecord(id).Err?
    ensures r.Err? ==> r.error == NotFoundId(id)
    ensures r.Ok? ==> r.value == Found(store.local.TaskRecord(id).value, Local)
  {
    match LocateTask(store, id)
    case None => Err(NotFoundId(id))
    case Some(f) => Ok(f)
  }
}
