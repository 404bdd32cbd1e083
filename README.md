# git-context in Dafny

A model of the core of `git-ctx`, a Go command-line tool that keeps notes
("memories"), tasks and advisory locks next to a git repository.

Each memory, task and lock is stored in one of two backends:

- the **local** backend is a set of plain files under `.git/context/`;
- the **shared** backend is still a stub. It accepts every write, keeps nothing, and finds nothing.

The commands always look in the local backend first. Each command writes a changed entry back to the backend it was found in. New entries go to the backend that `--shared` selects.

The model follows the program's package structure, one module per source file:

- `TaskModel` (`task.dfy`), `LockModel` (`lock.dfy`), `MemoryModel` (`memory.dfy`) and `Util` (`util.dfy`) model the records of `internal/model`.
  - `Task` is a class, because its transitions (`Claim`, `Drop`, `Done`, `AddComment`) update the object in place. `TaskData` is the record the store persists.
  - Memories and locks are values: every read decodes a fresh copy.
  - `Util` holds the id generator, which turns four random bytes into eight hex characters, and the author-name fallback to `Unknown`.
- `LocalStore` (`local.dfy`) is the file backend, a class with three maps:
  - memory directories by id, each with a `meta.json` record and a `content.md` blob;
  - task files by id;
  - lock files by the 16-hex-character digest of the target.

  A `failing` flag stands for a medium on which every file-system call fails. Timestamps are stored with second precision (`Clock`, `clock.dfy`). A year outside 0000–9999 cannot be parsed back and silently becomes Go's zero time.

  `os.ReadDir` lists names in sorted order (`DirOrder`, `dirorder.dfy`), so every listing is a fixed sequence: the `MemoryListing`, `TaskListing` and `LockListing` functions.
- `SharedStore` (`shared.dfy`) is the stub backend. `Storage` (`storage.dfy`) pairs the two backends and models the `--shared` selector of `root.go`.
- `CmdRoot` (`cmdroot.dfy`) holds what the command handlers share:
  - the error kinds;
  - the local-first lookup;
  - writing an entry back to a chosen backend.
- `TaskCmd`, `LockCmd`, `ShowCmd`, `RmCmd`, `ListCmd`, `SearchCmd`, `EditCmd` and `AddCmd` model the handlers of `internal/cmd`.
  - Each handler that changes the store is a method over the store. It is specified by a pure function that states its outcome and the new store contents.
  - Several quirks of the program are stated and proved:
    - a task can be claimed again while it is done;
    - nobody can drop an unowned task;
    - `rm` never reports "not found";
    - the lock holder cannot re-lock their own active lock;
    - `lock list` prints an empty table, not "No active locks", when every lock has expired.

Values that the program reads from its environment are parameters in the model:

- the current time (`now`, nanoseconds since the Unix epoch);
- the random bytes of a new id;
- the git user name;
- the hash function behind lock file names;
- the text typed into the editor or piped into stdin.

## Model

| member | source | states |
|---|---|---|
| TaskModel.Task.New | go/internal/model/task.go:42-54 | a new task is open, unowned, never done, without comments or dependencies, created and updated at the same instant, with id "task-" plus eight hex characters |
| TaskModel.Task.Decode | go/internal/storage/local.go:188-193 | a task object decoded from a stored record holds exactly that record |
| TaskModel.Task.Claim | go/internal/model/task.go:57-61 | the owner becomes the claimant, status becomes claimed, updatedAt is now, every other field is kept; the status stays one of the three known ones |
| TaskModel.Task.Drop | go/internal/model/task.go:64-68 | owner is cleared, status becomes open, updatedAt is now, nothing else changes |
| TaskModel.Task.Done | go/internal/model/task.go:71-76 | status becomes done and doneAt and updatedAt are the same instant; nothing else changes |
| TaskModel.Task.AddComment | go/internal/model/task.go:79-86 | exactly one comment is appended at the end with the given author, text and time; earlier comments are kept |
| TaskModel.Task.IsBlocked | go/internal/model/task.go:89-98 | blocked iff some listed dependency is a known task whose status is not done; unknown ids never block; no dependencies means not blocked |
| TaskModel.Task.MatchesSearch | go/internal/model/task.go:101-105 | the empty query matches every task |
| LockModel.NewLock | go/internal/model/lock.go:17-25 | the lock names target and holder, starts now and lasts DefaultLockExpiry (4 h): unexpired through now+4h inclusive, expired afterwards |
| LockModel.ExpiryIsStrict | go/internal/model/lock.go:28-30 | a lock is not yet expired at its expiry instant and is expired one nanosecond later |
| LockModel.ExpiryIsMonotone | go/internal/model/lock.go:28-30 | once expired, a lock stays expired at every later instant |
| MemoryModel.NewMemory | go/internal/model/memory.go:22-33 | bare eight-hex-character id from the random bytes, fields copied, no tags, createdAt equal to updatedAt |
| MemoryModel.EmptyQueryMatches | go/internal/model/memory.go:36-40 | the empty query matches every memory |
| MemoryModel.MatchesSearchCaseBlind | go/internal/model/memory.go:36-40 | upper- or lower-casing the query does not change whether a memory matches |
| Text.ToLowerForgetsCase | go/internal/model/memory.go:37-39 | lower-casing after upper- or lower-casing equals lower-casing once |
| Text.Contains | go/internal/model/memory.go:38-39 | substring test: true iff the needle occurs at some position of the text |
| Text.ContainsEmpty | go/internal/model/task.go:102-104 | the empty string occurs in every string |
| Text.ContainsFoldCaseBlind | go/internal/model/memory.go:36-40 | case-insensitive containment ignores the case of the query |
| Text.Join | go/internal/cmd/task.go:97 | joining one part gives that part, no parts gives "", and any non-empty part gives a non-empty result |
| Text.TrimSpace | go/internal/cmd/add.go:77 | the result is a contiguous slice of the input with only white space cut off both ends, and neither end is white space |
| Text.TrimSpaceIdempotent | go/internal/cmd/add.go:77 | trimming twice equals trimming once |
| Text.Ellipsize | go/internal/cmd/list.go:84-87 | a title within the width is kept; a longer one becomes exactly width characters, a prefix of it followed by "..." |
| Util.GenerateID | go/internal/model/util.go:11-15 | eight lower-case hex characters that decode back to the four random bytes |
| Util.HexRoundTrip | go/internal/model/util.go:14 | hex decoding inverts hex encoding for every byte string |
| Util.HexEncodeInjective | go/internal/model/util.go:14 | different byte strings have different hex encodings |
| Util.GenerateIDInjective | go/internal/model/util.go:11-15 | different random bytes give different ids |
| Util.GetAuthorShort | go/internal/model/util.go:32-38 | the configured name, or "Unknown" when it is empty; never empty |
| Util.GetAuthor | go/internal/model/util.go:18-29 | the short author, followed by " <email>" exactly when an email is configured |
| Util.AuthorShortIsPrefix | go/internal/model/util.go:18-38 | the full author string starts with the short author |
| Clock.FormatTime | go/internal/storage/local.go:58-59 | the written stamp is the second containing the instant, when its year has four digits |
| Clock.ParseTimeOrZero | go/internal/storage/local.go:106-107 | an unparsable stamp reads back as the zero time; a parsed one is a whole second |
| Clock.TruncateToSecond | go/internal/storage/local.go:58-59 | the whole second at or before the instant, less than a second away |
| Clock.StampRoundTrip | go/internal/storage/local.go:314-316 | writing then parsing a timestamp truncates it to the second, or yields the zero time for a year outside 0000–9999 |
| Clock.StampRoundTripStable | go/internal/storage/local.go:314-316 | a timestamp that went through the round trip once is unchanged by another, whether it became a whole second or the zero time |
| DirOrder.LexLeqTotal | go/internal/storage/local.go:123 | any two names are ordered one way or the other |
| DirOrder.LexLeqAntisymmetric | go/internal/storage/local.go:123 | two names ordered both ways are equal |
| DirOrder.LexLeqTransitive | go/internal/storage/local.go:123 | the name order is transitive |
| DirOrder.LeastExists | go/internal/storage/local.go:123 | every non-empty directory has a first name |
| DirOrder.SortedNames | go/internal/storage/local.go:123 | a listing has one entry per name in the directory |
| DirOrder.SortedNamesMembers | go/internal/storage/local.go:123 | a listing holds exactly the directory's names |
| DirOrder.SortedNamesOrdered | go/internal/storage/local.go:123 | the listing is strictly sorted |
| DirOrder.ReadDir | go/internal/storage/local.go:198 | taking the least remaining name each step yields the sorted listing |
| LocalStore.DecodeMemory | go/internal/storage/local.go:76-119 | reading fails iff meta.json is missing or undecodable or content.md is missing; otherwise content and id come from those files |
| LocalStore.MemoryRoundTrip | go/internal/storage/local.go:38-119 | a written memory reads back with every field equal except the timestamps, which are truncated to the second or become the zero time |
| LocalStore.FilterMatchesMembers | go/internal/storage/local.go:149-163 | the search keeps exactly the listed memories that match the query |
| LocalStore.EmptyQueryKeepsAll | go/internal/storage/local.go:149-163 | searching for the empty string returns the whole listing, in order |
| LocalStore.IntactValuesMembers | go/internal/storage/local.go:207-214 | a listing holds exactly the decodable records among the names it walks |
| LocalStore.MemoryValuesMembers | go/internal/storage/local.go:132-139 | the memory listing holds exactly the readable memories among the walked names |
| LocalStore.TaskListingComplete | go/internal/storage/local.go:196-218 | a task is listed iff some task file decodes to it; unreadable files are skipped |
| LocalStore.LockListingComplete | go/internal/storage/local.go:272-299 | a lock is listed iff some lock file decodes to it |
| LocalStore.MemoryListingComplete | go/internal/storage/local.go:121-142 | a memory is listed iff some memory directory reads back as it |
| LocalStore.DeletedTaskNotListed | go/internal/storage/local.go:233-236 | after its file is removed, a task with that id is no longer listed |
| LocalStore.DeletedMemoryNotListed | go/internal/storage/local.go:144-147 | after its directory is removed, a memory with that id is no longer listed |
| LocalStore.LocalStorage.constructor | go/internal/storage/local.go:22-34 | a working backend over the given areas and digest function |
| LocalStore.LocalStorage.WriteMemory | go/internal/storage/local.go:38-74 | fails only on a failing medium; otherwise memory/<id> holds the encoded memory and reads back as the persisted memory; other areas untouched |
| LocalStore.LocalStorage.ReadMemory | go/internal/storage/local.go:76-119 | succeeds exactly when the medium works, the directory exists and its meta.json and content.md decode; then it returns that decoded memory, otherwise the decoding error |
| LocalStore.LocalStorage.ListMemories | go/internal/storage/local.go:121-142 | the failure of the medium, or the readable memories in directory-name order |
| LocalStore.LocalStorage.DeleteMemory | go/internal/storage/local.go:144-147 | succeeds even for an absent id; afterwards the id is gone |
| LocalStore.LocalStorage.SearchMemories | go/internal/storage/local.go:149-163 | the listing filtered by MatchesSearch, or the listing error |
| LocalStore.LocalStorage.WriteTask | go/internal/storage/local.go:167-179 | the task file named by the task's id holds the task and reads back equal |
| LocalStore.LocalStorage.TaskRecord | go/internal/storage/local.go:181-194 | a record is found iff the medium works and <id>.json exists and decodes |
| LocalStore.LocalStorage.ReadTask | go/internal/storage/local.go:181-194 | a fresh task object equal to the stored record, or that record's error |
| LocalStore.LocalStorage.ListTasks | go/internal/storage/local.go:196-218 | the decodable tasks in file-name order, or the medium's error |
| LocalStore.LocalStorage.UpdateTask | go/internal/storage/local.go:220-231 | read error or mutator refusal leaves the area as it was; otherwise the mutated task is written under its own id |
| LocalStore.LocalStorage.DeleteTask | go/internal/storage/local.go:233-236 | fails with NotFound for an absent id, unlike DeleteMemory; afterwards the id is gone |
| LocalStore.LocalStorage.WriteLock | go/internal/storage/local.go:240-253 | the lock is stored under the digest of its target, reads back equal, and keeps every lock file named by its target's digest |
| LocalStore.LocalStorage.ReadLock | go/internal/storage/local.go:255-270 | found iff the medium works and the file named by the target's digest exists and decodes |
| LocalStore.LocalStorage.ListLocks | go/internal/storage/local.go:272-299 | the decodable locks in file-name order, or the medium's error |
| LocalStore.LocalStorage.DeleteLock | go/internal/storage/local.go:301-305 | fails with NotFound when the target's file is absent; afterwards it is gone |
| LocalStore.NewLocalStorage | go/internal/storage/local.go:22-34 | fails iff the directories cannot be created; otherwise a fresh backend over the given areas |
| SharedStore.NewSharedStorage | go/internal/storage/shared.go:14-19 | never fails and remembers the repository path |
| SharedStore.WritesPersistNothing | go/internal/storage/shared.go:23-90 | every write succeeds, yet a later read finds nothing and every list stays empty |
| SharedStore.ReadsFindNothing | go/internal/storage/shared.go:28-85 | every read and search returns nothing and no error, for any key or query |
| SharedStore.UpdatesAndDeletesSucceed | go/internal/storage/shared.go:38-95 | UpdateTask succeeds whatever the mutator would do, and every delete succeeds |
| Storage.MultiStorage.constructor | go/internal/storage/storage.go:30-33 | the pair holds the given local and shared backends |
| Storage.NewMultiStorage | go/internal/storage/storage.go:36-51 | fails iff the local backend cannot be set up; otherwise a fresh pair over the given areas and a shared stub for the git directory |
| Storage.Selected | go/internal/cmd/root.go:93-98 | the shared backend exactly when --shared is set |
| CmdRoot.FirstFound | go/internal/cmd/show.go:54-68 | the local entry whenever the local read finds one; the shared entry only otherwise; nothing iff neither finds one, errors counting as nothing |
| CmdRoot.Reported | go/internal/cmd/task.go:248-250 | a storage failure becomes the command's failure with the same cause, success stays success |
| CmdRoot.SaveTask | go/internal/cmd/task.go:240-246 | the task is written to the backend it came from, and only the task area can change |
| CmdRoot.SaveMemory | go/internal/cmd/edit.go:69-75 | the memory is written to the given backend, and only the memory area can change |
| CmdRoot.SaveLock | go/internal/cmd/lock.go:71-74 | the lock is written to the given backend, and only the lock area can change |
| TaskCmd.LocateTask | go/internal/cmd/task.go:341-355 | findTask yields the local record whenever it can be read, and nothing otherwise, since the shared probe never finds a task |
| TaskCmd.Decoded | go/internal/storage/local.go:188-193 | a fresh task object holding exactly the decoded record |
| TaskCmd.FindTask | go/internal/cmd/task.go:341-355 | a fresh task object equal to the located record, tagged with its backend, or nothing |
| TaskCmd.ClaimStep | go/internal/cmd/task.go:234-240 | refused with "already claimed by <owner>" iff the task is claimed by someone else; re-claiming your own task and claiming a done task proceed |
| TaskCmd.DropStep | go/internal/cmd/task.go:265-269 | refused with "not owned by you" unless the caller is the owner; otherwise the task is open and unowned |
| TaskCmd.DoneStep | go/internal/cmd/task.go:295 | done has no guard: any task in any status is marked done at now |
| TaskCmd.CommentStep | go/internal/cmd/task.go:323 | commenting has no guard: the comment is appended last |
| TaskCmd.TaskCommandAtomic | go/internal/cmd/task.go:225-254 | a failed task command leaves the task area unchanged; it succeeds iff the task is found, the step accepts it and the write succeeds; a local success stores exactly the stepped task |
| TaskCmd.ClaimIsExclusive | go/internal/cmd/task.go:234-236 | after A claims a task, B's claim is refused exactly when B is not A |
| TaskCmd.UnownedTaskCannotBeDropped | go/internal/cmd/task.go:265-267 | because the caller's name is never empty, an unowned task can never be dropped |
| TaskCmd.ClaimThenDropReopens | go/internal/cmd/task.go:256-285 | claim then drop by the same user leaves the task open and unowned |
| TaskCmd.RunTaskClaim | go/internal/cmd/task.go:225-254 | not found, the claim refusal, or the claimed task written back to its own backend; memories and locks untouched |
| TaskCmd.RunTaskDrop | go/internal/cmd/task.go:256-285 | not found, the drop refusal, or the dropped task written back to its own backend |
| TaskCmd.RunTaskDone | go/internal/cmd/task.go:287-311 | not found, or the finished task written back to its own backend |
| TaskCmd.RunTaskComment | go/internal/cmd/task.go:313-339 | not found, or the task with the comment appended written back to its own backend |
| TaskCmd.RunTaskAdd | go/internal/cmd/task.go:96-114 | a new open task titled by the arguments joined with single spaces is written to the selected backend, and its id is returned |
| TaskCmd.TagTasks | go/internal/cmd/task.go:125-139 | the same tasks in the same order with the shared field overwritten |
| TaskCmd.AppendTagged | go/internal/cmd/task.go:125-128 | the loop appends the tagged tasks after those already collected |
| TaskCmd.RunTaskList | go/internal/cmd/task.go:116-140 | local tasks are included iff --all or not --shared and shared ones iff --all or --shared; local tasks come first, tagged local; a local listing error aborts |
| TaskCmd.TaskRowOf | go/internal/cmd/task.go:157-174 | titles over 35 characters are cut to 32 plus "..."; an empty owner shows as "-"; the type column follows the shared field |
| TaskCmd.RunTaskShow | go/internal/cmd/task.go:179-185 | "not found: <id>" exactly when findTask finds nothing; otherwise the task and its backend |
| LockCmd.Existing | go/internal/cmd/lock.go:56-57 | a read error counts as no lock |
| LockCmd.AcquireCheck | go/internal/cmd/lock.go:59-66 | refused iff either backend holds an unexpired lock, whoever holds it; the local lock is reported first |
| LockCmd.NewLockExcludesForFourHours | go/internal/cmd/lock.go:59-69 | a fresh lock refuses every request, its holder's included, until exactly four hours have passed |
| LockCmd.RunLock | go/internal/cmd/lock.go:51-83 | the refusal with nothing written, or a new lock by the caller written to the selected backend, overwriting an expired one |
| LockCmd.UnlockCheck | go/internal/cmd/lock.go:132-154 | a local lock decides: its holder may release it, expired or not, and anyone else gets "cannot unlock"; the shared lock is checked only when there is no local one; with neither, "not locked" |
| LockCmd.OnlyHolderUnlocks | go/internal/cmd/lock.go:134-142 | the holder of a fresh lock may release it, and nobody else may |
| LockCmd.RunUnlock | go/internal/cmd/lock.go:131-155 | the decision above, and the local lock file is removed exactly when the local lock was released |
| LockCmd.Owned | go/internal/cmd/lock.go:161-168 | the caller's locks of a listing, never more locks than the listing has |
| LockCmd.OwnedMembers | go/internal/cmd/lock.go:161-168 | a lock is kept exactly when it is listed and the caller holds it |
| LockCmd.OwnedAppend | go/internal/cmd/lock.go:161-168 | filtering a concatenation filters each part in turn, so listing order and multiplicity are kept |
| LockCmd.OwnedSnoc | go/internal/cmd/lock.go:161-168 | one more listed lock is appended at the end when the caller holds it, and dropped otherwise |
| LockCmd.OwnedSingle | go/internal/cmd/lock.go:161-168 | a single lock is kept exactly when the caller holds it |
| LockCmd.FileNamesAppend | go/internal/cmd/lock.go:161-168 | one more deleted lock adds exactly its target's file name |
| LockCmd.ReleaseLocal | go/internal/cmd/lock.go:159-168 | every owned lock's file is removed, expired or not, and the release count is the number of owned locks |
| LockCmd.ReleaseShared | go/internal/cmd/lock.go:171-178 | every owned shared lock is deleted and counted |
| LockCmd.UnlockAll | go/internal/cmd/lock.go:157-185 | never fails; on a working medium, removes exactly the files of the caller's listed locks and counts them; an unreadable lock area releases nothing |
| LockCmd.RunUnlockCommand | go/internal/cmd/lock.go:123-155 | with no argument, every lock the caller holds is released and counted, as by unlockAll; otherwise the first argument is released by the single-target decision |
| LockCmd.UnlockAllKeepsOthers | go/internal/cmd/lock.go:157-185 | when lock files are named by their target's digest, unlockAll keeps exactly the files that do not hold the caller's locks |
| LockCmd.Unexpired | go/internal/cmd/lock.go:114-118 | the locks of a listing still in force, never more locks than the listing has |
| LockCmd.UnexpiredMembers | go/internal/cmd/lock.go:114-118 | a lock is kept exactly when it is listed and not expired |
| LockCmd.UnexpiredAppend | go/internal/cmd/lock.go:114-118 | filtering a concatenation filters each part in turn, so listing order and multiplicity are kept |
| LockCmd.UnexpiredSnoc | go/internal/cmd/lock.go:114-118 | one more listed lock is appended at the end while in force, and dropped once expired |
| LockCmd.UnexpiredSingle | go/internal/cmd/lock.go:114-118 | a single lock is kept exactly when it is not expired |
| LockCmd.TableRows | go/internal/cmd/lock.go:114-118 | the table loop skips exactly the expired locks |
| LockCmd.RunLockList | go/internal/cmd/lock.go:85-121 | "No active locks" only when nothing was collected, expired locks included; otherwise a table of the unexpired ones; list errors are ignored |
| LockCmd.ExpiredLocksGiveEmptyTable | go/internal/cmd/lock.go:103-118 | when every collected lock has expired, the table has no rows instead of the "No active locks" message |
| ShowCmd.FindMemory | go/internal/cmd/show.go:54-68 | the local memory whenever the local read succeeds; otherwise nothing, since the shared probe finds nothing |
| ShowCmd.RunShow | go/internal/cmd/show.go:25-32 | "not found: <id>" exactly when findMemory finds nothing |
| RmCmd.RunRm | go/internal/cmd/rm.go:22-40 | on a working medium the local delete succeeds, even for an unknown id, and is reported; otherwise the shared delete is reported; "not found" never happens |
| ListCmd.TagMemories | go/internal/cmd/list.go:38-52 | the same memories in the same order with the shared field overwritten |
| ListCmd.AppendTagged | go/internal/cmd/list.go:38-41 | the loop appends the tagged memories after those already collected |
| ListCmd.RunList | go/internal/cmd/list.go:29-61 | local memories are included iff --all or not --shared and shared ones iff --all or --shared; local ones come first, tagged local, in listing order; a local listing error aborts |
| ListCmd.MemoryRowOf | go/internal/cmd/list.go:76-90 | titles over 45 characters become their first 42 plus "..." (exactly 45); shorter titles are unchanged |
| SearchCmd.RunSearch | go/internal/cmd/search.go:26-52 | both backends are always searched; a failing backend contributes nothing; local hits come first, tagged local; zero hits give the "No results" report, never an error |
| SearchCmd.SearchHitsMatch | go/internal/cmd/search.go:30-37 | every hit is a listed local memory that matches the query, tagged local |
| SearchCmd.SearchRowOf | go/internal/cmd/search.go:61-73 | titles over 50 characters become their first 47 plus "..." |
| EditCmd.Edited | go/internal/cmd/edit.go:66-67 | the edited text replaces the content verbatim and updatedAt becomes now; every other field is kept |
| EditCmd.RunEdit | go/internal/cmd/edit.go:25-83 | "not found" before the editor runs; an editor failure writes nothing; otherwise the edited memory is written back to the backend it was found in |
| AddCmd.AddTitle | go/internal/cmd/add.go:45-51 | the --title flag, else the arguments joined by spaces, else "Untitled"; never empty |
| AddCmd.AddContent | go/internal/cmd/add.go:53-77 | the --message text, else the entered text, trimmed of surrounding white space; a failure to read the entered text is reported only when no message was given |
| AddCmd.RunAdd | go/internal/cmd/add.go:43-98 | a new memory with the derived title and content, exactly the given tags and the shared flag is written to the selected backend; written locally, it reads back with whole-second timestamps |

## Left out

- File-system layout and JSON encoding are left out. Each local area is a map from file or directory name to a decoded record or `Garbled`. `failing` stands for any file-system error, and a missing area directory is an empty map.
- A directory inside the tasks or locks area, or a file inside the memory area, is not modelled: the maps cannot hold one. Go's listings skip such entries.
- The SHA-256 digest of `hashTarget` (go/internal/storage/local.go:309-312) is a parameter, `digest`, required to return 16 hex characters. Digest collisions are not considered.
- `crypto/rand`, `time.Now` and `git config` are not modelled. The random bytes, the current instant and the user name are parameters.
- The editor and stdin reading in add.go and edit.go are not modelled. Their result is an `Option<string>` parameter, where None means the temporary file, the editor or the read failed.
- Table layout, JSON output and printed messages are not modelled. Commands return the error or the data they would print.
- The cobra wiring, main.go, the global flags of root.go and sync.go (push and pull only print that they are unimplemented) are not modelled.
- The storage interface (go/internal/storage/storage.go:7-27) has no trait. Its two implementations are the `LocalStorage` class and the `SharedStorage` datatype, and `Origin` says which one a command means.
- Concurrent processes are not modelled. The read-then-write of lock acquisition and of UpdateTask is modelled as a single sequential step.
- Text.ToLower: ASCII letters only; Go's `strings.ToLower` also folds non-ASCII letters.
- Text.TrimSpace: ASCII white space only; Go's `strings.TrimSpace` also trims Unicode spaces.
- Text.Ellipsize: lengths count characters, where Go's `len` counts UTF-8 bytes. The two agree on ASCII titles.
- TaskModel.Task.AddComment: one `now` serves both the comment time and updatedAt, although Go reads the clock twice.
- LockCmd.RunLock: one `now` serves both the expiry check and the new lock, although Go reads the clock for each.
- LocalStore.LocalStorage.WriteTask: always succeeds on a working medium, but Go's JSON encoder rejects a time whose year is outside 0000–9999.
- LocalStore.LocalStorage.WriteLock: always succeeds on a working medium, but Go's `json.MarshalIndent` fails when `lockedAt` or `expiresAt` has a year outside 0000–9999 (for instance an expiry four hours past the end of year 9999). WriteLock then returns that error and writes nothing.
- LockCmd.RunLock: for the same reason, `lock` can fail in Go with an encoding error that the model does not produce.
- LocalStore.LocalStorage.DeleteMemory: the id is taken as one name in the memory area. Go joins it into a path and calls `os.RemoveAll`. So `""` and `"."` remove the whole memory directory, `".."` removes the whole context directory (tasks and locks included), and `"../.."` removes the repository's `.git`. The model removes at most one entry.
- RmCmd.RunRm: inherits DeleteMemory's single-name reading. Its promise that tasks and locks are unchanged holds only for ids that are one plain name.
- LocalStore.LocalStorage.ReadTask, ReadMemory, ReadLock, WriteTask, DeleteTask: ids are single names here as well. In Go an id containing `/` or `..` reaches other files (`task show ../locks/<hash>` decodes a lock file as a task). The model has no paths, so it cannot express this.
- LocalStore.LocalStorage.UpdateTask: the mutator is a pure function from record to record-or-refusal, not a callback that edits the task object.
- TaskModel.Task.MatchesSearch: its contract states only that the empty query matches. The full condition (the lower-cased query occurs in the lower-cased title or description) is the predicate's own definition through Text.ContainsFold.
