/** go/internal/cmd/lock.go: `lock`, `lock list` and `unlock`. Read errors
    are ignored throughout: a lock that cannot be read counts as no lock. */
module LockCmd {
  import opened Wrappers
  import opened Clock
  import opened StorageErrors
  import opened LocalStore
  import opened SharedStore
  import opened Storage
  import opened LockModel
  import opened CmdRoot
  import opened Util

  /** The lock a read returned, with a read error taken as "no lock". */
  function Existing(read: Result<Option<Lock>, StoreError>): (r: Option<Lock>)
    ensures r.Some? <==> read.Ok? && read.value.Some?
    ensures r.Some? ==> r.value == read.value.value
  {
    if read.Ok? then read.value else None
  }

  /** runLock's guard: an unexpired lock in either backend refuses the
      request, the local one reported first. Who asks plays no part: the
      holder cannot re-lock either. */
  function AcquireCheck(local: Option<Lock>, shared: Option<Lock>, now: Instant): (r: Outcome<CmdError>)
    ensures r.Fail? <==> (local.Some? && !local.value.IsExpired(now)) || (shared.Some? && !shared.value.IsExpired(now))
    ensures local.Some? && !local.value.IsExpired(now) ==> r == Fail(AlreadyLockedBy(local.value.lockedBy, local.value.expiresAt))
    ensures r.Fail? && !(local.Some? && !local.value.IsExpired(now)) ==>
              r == Fail(AlreadyLockedBy(shared.value.lockedBy, shared.value.expiresAt))
  {
    if local.Some? && !local.value.IsExpired(now) then Fail(AlreadyLockedBy(local.value.lockedBy, local.value.expiresAt))
    else if shared.Some? && !shared.value.IsExpired(now) then Fail(AlreadyLockedBy(shared.value.lockedBy, shared.value.expiresAt))
    else Pass
  }

  /** A fresh lock keeps everyone out, its holder included, for exactly four
      hours: through `now + DefaultLockExpiry` inclusive and not a moment later. */
  lemma NewLockExcludesForFourHours(target: string, holder: string, now: Instant, later: Instant)
    ensures AcquireCheck(Some(NewLock(target, holder, now)), None, later).Fail? <==> later <= now + DefaultLockExpiry
    ensures later <= now + DefaultLockExpiry ==>
              AcquireCheck(Some(NewLock(target, holder, now)), None, later) == Fail(AlreadyLockedBy(holder, now + DefaultLockExpiry))
  {
  }

  /** `lock <target>`: refused while an unexpired lock exists, otherwise a
      new four-hour lock by the caller is written to the selected backend. */
  method RunLock(store: MultiStorage, target: string, userName: string, sharedFlag: bool, now: Instant)
    returns (r: Outcome<CmdError>)
    modifies store.local
    ensures var check := AcquireCheck(Existing(old(store.local.ReadLock(target))), Existing(store.shared.ReadLock(target)), now);
            if check.Fail? then r == check && store.local.locks == old(store.local.locks)
            else r == Reported(WriteOutcome(old(store.local.failing), Selected(sharedFlag)))
                 && store.local.locks == LocksAfterWrite(old(store.local.locks), old(store.local.failing), Selected(sharedFlag),
                                                         store.local.digest, NewLock(target, GetAuthorShort(userName), now))
    ensures store.local.memories == old(store.local.memories) && store.local.tasks == old(store.local.tasks)
    ensures store.local.failing == old(store.local.failing)
  {
    var author := GetAuthorShort(userName);
    var existingLocal := Existing(store.local.ReadLock(target));
    var existingShared := Existing(store.shared.ReadLock(target));
    var check := AcquireCheck(existingLocal, existingShared, now);
    if check.Fail? {
      return check;
    }
    var lock := NewLock(target, author, now);
    var w := SaveLock(store, Selected(sharedFlag), lock);
    r := Reported(w);
  }

  /** runUnlock's decision for one target: the local lock, if there is one,
      decides; only its holder may remove it, expired or not. */
  function UnlockCheck(local: Option<Lock>, shared: Option<Lock>, author: string, target: string): (r: Result<Origin, CmdError>)
    ensures local.Some? ==> r == if local.value.IsOwnedBy(author) then Ok(Local) else Err(CannotUnlock(local.value.lockedBy))
    ensures local.None? && shared.Some? ==> r == if shared.value.IsOwnedBy(author) then Ok(Shared) else Err(CannotUnlock(shared.value.lockedBy))
    ensures local.None? && shared.None? ==> r == Err(NotLocked(target))
  {
    if local.Some? then
      (if local.value.IsOwnedBy(author) then Ok(Local) else Err(CannotUnlock(local.value.lockedBy)))
    else if shared.Some? then
      (if shared.value.IsOwnedBy(author) then Ok(Shared) else Err(CannotUnlock(shared.value.lockedBy)))
    else Err(NotLocked(target))
  }

  /** Lock then unlock: the holder of a fresh lock may release it and nobody else may. */
  lemma OnlyHolderUnlocks(target: string, holder: string, now: Instant, other: string, shared: Option<Lock>)
    ensures UnlockCheck(Some(NewLock(target, holder, now)), shared, holder, target) == Ok(Local)
    ensures other != holder ==> UnlockCheck(Some(NewLock(target, holder, now)), shared, other, target) == Err(CannotUnlock(holder))
  {
  }

  /** `unlock <target>`: removes the caller's lock file, local first; the
      result of the removal is not looked at. */
  method RunUnlock(store: MultiStorage, target: string, userName: string) returns (r: Result<Origin, CmdError>)
    modifies store.local
    ensures r == UnlockCheck(Existing(old(store.local.ReadLock(target))), Existing(store.shared.ReadLock(target)),
                             GetAuthorShort(userName), target)
    ensures store.local.locks == if r == Ok(Local) then old(store.local.locks) - {store.local.digest(target)} else old(store.local.locks)
    ensures store.local.memories == old(store.local.memories) && store.local.tasks == old(store.local.tasks)
    ensures store.local.failing == old(store.local.failing)
  {
    var author := GetAuthorShort(userName);
    var localLock := Existing(store.local.ReadLock(target));
    if localLock.Some? {
      if !localLock.value.IsOwnedBy(author) {
        return Err(CannotUnlock(localLock.value.lockedBy));
      }
      var ignored := store.local.DeleteLock(target);
      return Ok(Local);
    }
    var shared := store.shared;
    match Existing(shared.ReadLock(target)) {
      case Some(l) =>
        if !l.IsOwnedBy(author) {
          return Err(CannotUnlock(l.lockedBy));
        }
        var ignored := shared.DeleteLock(target);
        return Ok(Shared);
      case None =>
    }
    return Err(NotLocked(target));
  }

  /** The locks of `ls` held by `author`, in order. */
  function Owned(ls: seq<Lock>, author: string): (r: seq<Lock>)
    ensures |r| <= |ls|
  {
    if ls == [] then []
    else Owned(ls[..|ls| - 1], author) + (if ls[|ls| - 1].IsOwnedBy(author) then [ls[|ls| - 1]] else [])
  }

  /** Owned keeps exactly the listed locks the caller holds. */
  lemma {:induction false} OwnedMembers(ls: seq<Lock>, author: string)
    ensures forall l :: l in Owned(ls, author) <==> l in ls && l.IsOwnedBy(author)
  {
    if ls != [] {
      var init := ls[..|ls| - 1];
      OwnedMembers(init, author);
      assert ls == init + [ls[|ls| - 1]];
    }
  }

  /** Filtering a concatenation filters each part: Owned keeps the listing's
      order and each lock as often as it is listed. */
  lemma {:induction false} OwnedAppend(a: seq<Lock>, b: seq<Lock>, author: string)
    ensures Owned(a + b, author) == Owned(a, author) + Owned(b, author)
    decreases |b|
  {
    if b == [] {
      assert a + b == a;
    } else {
      var init := b[..|b| - 1];
      var last := b[|b| - 1];
      var kept := if last.IsOwnedBy(author) then [last] else [];
      assert a + b == (a + init) + [last];
      assert b == init + [last];
      calc {
        Owned(a + b, author);
        Owned((a + init) + [last], author);
        { OwnedSnoc(a + init, last, author); }
        Owned(a + init, author) + kept;
        { OwnedAppend(a, init, author); }
        (Owned(a, author) + Owned(init, author)) + kept;
        Owned(a, author) + (Owned(init, author) + kept);
        { OwnedSnoc(init, last, author); }
        Owned(a, author) + Owned(b, author);
      }
    }
  }

  /** One more lock at the end is kept at the end, or dropped. */
  lemma OwnedSnoc(ls: seq<Lock>, l: Lock, author: string)
    ensures Owned(ls + [l], author) == Owned(ls, author) + (if l.IsOwnedBy(author) then [l] else [])
  {
    assert (ls + [l])[..|ls|] == ls;
  }

  /** A single lock is kept exactly when the caller holds it. */
  lemma OwnedSingle(l: Lock, author: string)
    ensures Owned([l], author) == if l.IsOwnedBy(author) then [l] else []
  {
    assert [l][..0] == [];
  }

  /** The lock file names the targets of `ls` hash to. */
  function FileNames(ls: seq<Lock>, digest: string -> string): set<string>
  {
    set l | l in ls :: digest(l.target)
  }

  /** The shared half of unlockAll: every owned lock is deleted and counted. */
  method ReleaseShared(shared: SharedStorage, ls: seq<Lock>, author: string) returns (count: nat)
    ensures count == |Owned(ls, author)|
  {
    count := 0;
    var i := 0;
    while i < |ls|
      invariant 0 <= i <= |ls|
      invariant count == |Owned(ls[..i], author)|
    {
      assert ls[..i + 1][..i] == ls[..i];
      if ls[i].IsOwnedBy(author) {
        var ignored := shared.DeleteLock(ls[i].target);
        count := count + 1;
      }
      i := i + 1;
    }
    assert ls[..i] == ls;
  }

  lemma FileNamesAppend(ls: seq<Lock>, l: Lock, digest: string -> string)
    ensures FileNames(ls + [l], digest) == FileNames(ls, digest) + {digest(l.target)}
  {
    assert forall x :: x in ls + [l] <==> x in ls || x == l;
  }

  /** Removing one more name after a set of names: whether or not the name
      is still there, the result is the removal of both at once. */
  lemma RemoveOneMore<V>(m: map<string, V>, names: set<string>, k: string)
    ensures (m - names) - {k} == m - (names + {k})
    ensures k !in m - names ==> m - names == m - (names + {k})
  {
  }

  /** The local half of unlockAll: the file of every owned lock of `ls` is
      removed, whether or not it is still there. */
  method ReleaseLocal(local: LocalStorage, ls: seq<Lock>, author: string) returns (count: nat)
    requires !local.failing || ls == []
    modifies local
    ensures count == |Owned(ls, author)|
    ensures local.locks == old(local.locks) - FileNames(Owned(ls, author), local.digest)
    ensures local.memories == old(local.memories) && local.tasks == old(local.tasks) && local.failing == old(local.failing)
  {
    count := 0;
    var i := 0;
    while i < |ls|
      invariant 0 <= i <= |ls|
      invariant count == |Owned(ls[..i], author)|
      invariant local.locks == old(local.locks) - FileNames(Owned(ls[..i], author), local.digest)
      invariant local.memories == old(local.memories) && local.tasks == old(local.tasks) && local.failing == old(local.failing)
    {
      assert ls[..i + 1][..i] == ls[..i];
      if ls[i].IsOwnedBy(author) {
        var k := local.digest(ls[i].target);
        assert Owned(ls[..i + 1], author) == Owned(ls[..i], author) + [ls[i]];
        FileNamesAppend(Owned(ls[..i], author), ls[i], local.digest);
        RemoveOneMore(old(local.locks), FileNames(Owned(ls[..i], author), local.digest), k);
        var ignored := local.DeleteLock(ls[i].target);
        count := count + 1;
      } else {
        assert Owned(ls[..i + 1], author) == Owned(ls[..i], author);
      }
      i := i + 1;
    }
    assert ls[..i] == ls;
  }

  /** unlockAll: deletes, in listing order, the file of every lock the caller
      holds and reports how many it released; it never fails, and an
      unreadable lock area releases nothing. */
  method UnlockAll(store: MultiStorage, author: string) returns (released: nat)
    modifies store.local
    ensures old(store.local.failing) ==> released == 0 && store.local.locks == old(store.local.locks)
    ensures !old(store.local.failing) ==>
              var mine := Owned(LockListing(old(store.local.locks)), author);
              released == |mine| && store.local.locks == old(store.local.locks) - FileNames(mine, store.local.digest)
    ensures store.local.memories == old(store.local.memories) && store.local.tasks == old(store.local.tasks)
    ensures store.local.failing == old(store.local.failing)
  {
    var localLocks := store.local.ListLocks();
    released := ReleaseLocal(store.local, if localLocks.Ok? then localLocks.value else [], author);
    var sharedLocks := store.shared.ListLocks();
    var count := ReleaseShared(store.shared, if sharedLocks.Ok? then sharedLocks.value else [], author);
    released := released + count;
  }

  /** What `unlock` reports: how many locks a bare `unlock` released, or the
      backend a named target was released from. */
  datatype Unlocked = ReleasedAll(count: nat) | Released(origin: Origin)

  /** `unlock [target]`: with no argument every lock the caller holds is
      released; otherwise the first argument names the one to release. */
  method RunUnlockCommand(store: MultiStorage, args: seq<string>, userName: string) returns (r: Result<Unlocked, CmdError>)
    modifies store.local
    ensures args == [] && old(store.local.failing) ==>
              r == Ok(ReleasedAll(0)) && store.local.locks == old(store.local.locks)
    ensures args == [] && !old(store.local.failing) ==>
              var mine := Owned(LockListing(old(store.local.locks)), GetAuthorShort(userName));
              r == Ok(ReleasedAll(|mine|)) && store.local.locks == old(store.local.locks) - FileNames(mine, store.local.digest)
    ensures args != [] ==>
              var check := UnlockCheck(Existing(old(store.local.ReadLock(args[0]))), Existing(store.shared.ReadLock(args[0])),
                                       GetAuthorShort(userName), args[0]);
              r == (if check.Ok? then Ok(Released(check.value)) else Err(check.error)) &&
              store.local.locks == if check == Ok(Local) then old(store.local.locks) - {store.local.digest(args[0])} else old(store.local.locks)
    ensures store.local.memories == old(store.local.memories) && store.local.tasks == old(store.local.tasks)
    ensures store.local.failing == old(store.local.failing)
  {
    if args == [] {
      var count := UnlockAll(store, GetAuthorShort(userName));
      return Ok(ReleasedAll(count));
    }
    var one := RunUnlock(store, args[0], userName);
    if one.Err? {
      return Err(one.error);
    }
    return Ok(Released(one.value));
  }

  /** With every lock file named after its target's digest, unlockAll leaves
      exactly the files that do not hold an intact lock of the caller's. */
  lemma {:induction false} UnlockAllKeepsOthers(digest: string -> string, area: map<string, Stored<Lock>>, author: string)
    requires LocksNamedByDigest(digest, area)
    ensures forall k :: k in area - FileNames(Owned(LockListing(area), author), digest) <==>
              k in area && !(area[k].Intact? && area[k].value.IsOwnedBy(author))
  {
    LockListingComplete(area);
    OwnedMembers(LockListing(area), author);
    var mine := Owned(LockListing(area), author);
    forall k | k in area
      ensures k in FileNames(mine, digest) <==> area[k].Intact? && area[k].value.IsOwnedBy(author)
    {
      if area[k].Intact? && area[k].value.IsOwnedBy(author) {
        assert area[k].value in mine;
      }
      if k in FileNames(mine, digest) {
        var l :| l in mine && digest(l.target) == k;
        var k' :| k' in area && area[k'] == Intact(l);
        assert digest(l.target) == k';
      }
    }
  }

  /** What `lock list` shows. */
  datatype LockReport = NoActiveLocks | LockTable(rows: seq<Lock>)

  /** The locks of `ls` still in force at `now`, in order. */
  function Unexpired(ls: seq<Lock>, now: Instant): (r: seq<Lock>)
    ensures |r| <= |ls|
  {
    if ls == [] then []
    else Unexpired(ls[..|ls| - 1], now) + (if ls[|ls| - 1].IsExpired(now) then [] else [ls[|ls| - 1]])
  }

  /** Unexpired keeps exactly the listed locks still in force. */
  lemma {:induction false} UnexpiredMembers(ls: seq<Lock>, now: Instant)
    ensures forall l :: l in Unexpired(ls, now) <==> l in ls && !l.IsExpired(now)
  {
    if ls != [] {
      var init := ls[..|ls| - 1];
      UnexpiredMembers(init, now);
      assert ls == init + [ls[|ls| - 1]];
    }
  }

  /** Filtering a concatenation filters each part: Unexpired keeps the
      listing's order and each lock as often as it is listed. */
  lemma {:induction false} UnexpiredAppend(a: seq<Lock>, b: seq<Lock>, now: Instant)
    ensures Unexpired(a + b, now) == Unexpired(a, now) + Unexpired(b, now)
    decreases |b|
  {
    if b == [] {
      assert a + b == a;
    } else {
      var init := b[..|b| - 1];
      var last := b[|b| - 1];
      var kept := if last.IsExpired(now) then [] else [last];
      assert a + b == (a + init) + [last];
      assert b == init + [last];
      calc {
        Unexpired(a + b, now);
        Unexpired((a + init) + [last], now);
        { UnexpiredSnoc(a + init, last, now); }
        Unexpired(a + init, now) + kept;
        { UnexpiredAppend(a, init, now); }
        (Unexpired(a, now) + Unexpired(init, now)) + kept;
        Unexpired(a, now) + (Unexpired(init, now) + kept);
        { UnexpiredSnoc(init, last, now); }
        Unexpired(a, now) + Unexpired(b, now);
      }
    }
  }

  /** One more lock at the end is kept at the end, or dropped. */
  lemma UnexpiredSnoc(ls: seq<Lock>, l: Lock, now: Instant)
    ensures Unexpired(ls + [l], now) == Unexpired(ls, now) + (if l.IsExpired(now) then [] else [l])
  {
    assert (ls + [l])[..|ls|] == ls;
  }

  /** A single lock is kept exactly when it is still in force. */
  lemma UnexpiredSingle(l: Lock, now: Instant)
    ensures Unexpired([l], now) == if l.IsExpired(now) then [] else [l]
  {
    assert [l][..0] == [];
  }

  /** The table loop of runLockList, which skips expired locks. */
  method TableRows(ls: seq<Lock>, now: Instant) returns (rows: seq<Lock>)
    ensures rows == Unexpired(ls, now)
  {
    rows := [];
    var i := 0;
    while i < |ls|
      invariant 0 <= i <= |ls|
      invariant rows == Unexpired(ls[..i], now)
    {
      assert ls[..i + 1][..i] == ls[..i];
      if !ls[i].IsExpired(now) {
        rows := rows + [ls[i]];
      }
      i := i + 1;
    }
    assert ls[..i] == ls;
  }

  /** `lock list`: "No active locks" only when no lock was collected at all;
      otherwise a table of the unexpired ones. List errors are ignored. */
  method RunLockList(store: MultiStorage, all: bool, sharedFlag: bool, now: Instant) returns (r: LockReport)
    ensures var collected := if (all || !sharedFlag) && !store.local.failing then LockListing(store.local.locks) else [];
            r == if collected == [] then NoActiveLocks else LockTable(Unexpired(collected, now))
  {
    var locks: seq<Lock> := [];
    if all || !sharedFlag {
      var local := store.local.ListLocks();
      if local.Ok? {
        locks := locks + local.value;
      }
    }
    if all || sharedFlag {
      var shared := store.shared.ListLocks();
      if shared.Ok? {
        locks := locks + shared.value;
      }
    }
    assert locks == if (all || !sharedFlag) && !store.local.failing then LockListing(store.local.locks) else [];
    if |locks| == 0 {
      return NoActiveLocks;
    }
    var rows := TableRows(locks, now);
    return LockTable(rows);
  }

  /** When every collected lock has expired the table is printed with no
      rows rather than the "No active locks" message. */
  lemma ExpiredLocksGiveEmptyTable(ls: seq<Lock>, now: Instant)
    requires ls != [] && forall l :: l in ls ==> l.IsExpired(now)
    ensures Unexpired(ls, now) == []
  {
  }
}
