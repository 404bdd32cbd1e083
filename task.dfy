/** go/internal/model/task.go: a work item whose transitions update its
    fields in place. `TaskData` is the record the storage layer persists;
    `Task` is the object the command handlers hold and mutate. */
module TaskModel {
  import opened Wrappers
  import opened Clock
  import Text
  import Util

  /** TaskStatus is a plain string, as in Go: a record read back from disk may
      carry any string, but the transitions only ever write these three. */
  const StatusOpen: string := "open"
  const StatusClaimed: string := "claimed"
  const StatusDone: string := "done"

  predicate IsKnownStatus(s: string)
  {
    s == StatusOpen || s == StatusClaimed || s == StatusDone
  }

  const TaskIdPrefix: string := "task-"

  datatype Comment = Comment(author: string, content: string, createdAt: Instant)

  /** Every field of a task, as stored in `<id>.json`; `doneAt` is the nullable `DoneAt`. */
  datatype TaskData = TaskData(
    id: string,
    title: string,
    description: string,
    status: string,
    owner: string,
    createdBy: string,
    createdAt: Instant,
    updatedAt: Instant,
    doneAt: Option<Instant>,
    blockedBy: seq<string>,
    blocks: seq<string>,
    comments: seq<Comment>,
    shared: bool)

  class Task {
    var id: string
    var title: string
    var description: string
    var status: string
    var owner: string
    var createdBy: string
    var createdAt: Instant
    var updatedAt: Instant
    var doneAt: Option<Instant>
    var blockedBy: seq<string>
    var blocks: seq<string>
    var comments: seq<Comment>
    var shared: bool

    /** The task's current fields as a record. */
    function Value(): TaskData
      reads this
    {
      TaskData(id, title, description, status, owner, createdBy, createdAt, updatedAt,
               doneAt, blockedBy, blocks, comments, shared)
    }

    /** A task object filled from a stored record (`json.Unmarshal` into a fresh `Task`). */
    constructor Decode(v: TaskData)
      ensures Value() == v
    {
      id, title, description, status, owner := v.id, v.title, v.description, v.status, v.owner;
      createdBy, createdAt, updatedAt, doneAt := v.createdBy, v.createdAt, v.updatedAt, v.doneAt;
      blockedBy, blocks, comments, shared := v.blockedBy, v.blocks, v.comments, v.shared;
    }

    /** NewTask: open, unowned, never done, no comments or dependencies,
        created and updated at `now`, id "task-" followed by a generated id. */
    constructor New(title: string, description: string, author: string, shared: bool,
                    random: seq<Util.byte>, now: Instant)
      requires |random| == 4
      ensures Value() == TaskData(TaskIdPrefix + Util.GenerateID(random), title, description,
                                  StatusOpen, "", author, now, now, None, [], [], [], shared)
      ensures IsKnownStatus(status) && |id| == |TaskIdPrefix| + 8
    {
      this.id := TaskIdPrefix + Util.GenerateID(random);
      this.title, this.description, this.status, this.owner := title, description, StatusOpen, "";
      this.createdBy, this.createdAt, this.updatedAt, this.doneAt := author, now, now, None;
      this.blockedBy, this.blocks, this.comments, this.shared := [], [], [], shared;
    }

    /** Claim: the owner and status change, nothing else; `doneAt` and the
        comments are kept even when the task was done. */
    method Claim(owner: string, now: Instant)
      modifies this
      ensures Value() == old(Value()).(owner := owner, status := StatusClaimed, updatedAt := now)
      ensures IsKnownStatus(status)
    {
      this.owner := owner;
      status := StatusClaimed;
      updatedAt := now;
    }

    /** Drop: back to open with no owner; `doneAt` is kept. */
    method Drop(now: Instant)
      modifies this
      ensures Value() == old(Value()).(owner := "", status := StatusOpen, updatedAt := now)
      ensures IsKnownStatus(status)
    {
      owner := "";
      status := StatusOpen;
      updatedAt := now;
    }

    /** Done: from any status, done at `now`. */
    method Done(now: Instant)
      modifies this
      ensures Value() == old(Value()).(status := StatusDone, doneAt := Some(now), updatedAt := now)
      ensures IsKnownStatus(status) && doneAt == Some(updatedAt)
    {
      status := StatusDone;
      doneAt := Some(now);
      updatedAt := now;
    }

    /** AddComment: exactly one comment appended last; status and owner untouched. */
    method AddComment(author: string, content: string, now: Instant)
      modifies this
      ensures Value() == old(Value()).(comments := old(comments) + [Comment(author, content, now)], updatedAt := now)
      ensures |comments| == |old(comments)| + 1 && comments[|comments| - 1] == Comment(author, content, now)
      ensures old(IsKnownStatus(status)) ==> IsKnownStatus(status)
    {
      comments := comments + [Comment(author, content, now)];
      updatedAt := now;
    }

    /** IsBlocked: some dependency is a known task that is not done. Ids
        missing from `tasks` never block. */
    method IsBlocked(tasks: map<string, Task>) returns (blocked: bool)
      ensures blocked <==> exists i :: 0 <= i < |blockedBy| && blockedBy[i] in tasks && tasks[blockedBy[i]].status != StatusDone
      ensures blockedBy == [] ==> !blocked
    {
      var i := 0;
      while i < |blockedBy|
        invariant 0 <= i <= |blockedBy|
        invariant forall j :: 0 <= j < i ==> !(blockedBy[j] in tasks && tasks[blockedBy[j]].status != StatusDone)
      {
        var dep := blockedBy[i];
        if dep in tasks {
          if tasks[dep].status != StatusDone {
            return true;
          }
        }
        i := i + 1;
      }
      return false;
    }

    /** MatchesSearch: the lower-cased query occurs in the lower-cased title or description. */
    predicate MatchesSearch(query: string)
      reads this
      ensures query == "" ==> MatchesSearch(query)
    {
      Text.ContainsEmpty(Text.ToLower(title));
      Text.ContainsFold(title, query) || Text.ContainsFold(description, query)
    }
  }
}
