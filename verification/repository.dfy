/** Saving and removing dataset versions: one step updates the store, the ref store's head and the
  * logbook together (base/save.go, base/remove.go). */
module Repository {
  import opened Prelude
  import opened DsRef
  import opened OpLog
  import opened Replay
  import opened Writes
  import opened Logbook
  import opened ContentStore
  import opened VersionRuns

  datatype RepoError =
    | NeedPath | BadCount | NotLoaded | NoInitID | NothingToSave | NoName | CreateFailed
    | InvalidName | NoRef | LogFailed(e: WriteError)

  /** One dataset of a repository: the store, the ref-store cell of its alias, and its log. */
  class Repo {
    var store: Store
    var head: Option<string>
    const book: Book
    const name: string
    const nameIsValid: bool
    /** What the logbook resolves the dataset's alias to. */
    const initID: Option<string>
    ghost const depth: string -> nat

    constructor (book: Book, name: string, nameIsValid: bool, initID: Option<string>, ghost depth: string -> nat)
      ensures this.book == book && this.name == name && this.nameIsValid == nameIsValid
      ensures this.initID == initID && this.depth == depth && store == map[] && head == None
    {
      this.book, this.name, this.nameIsValid, this.initID, this.depth := book, name, nameIsValid, initID, depth;
      store, head := map[], None;
    }

    ghost predicate Writable(id: string)
      reads this, book
    {
      BranchOf(book.users, book.authorID, id).Ok?
    }

    /** The dataset as the run theorems see it. */
    ghost function View(id: string): Branch
      requires Writable(id)
      reads this, book
    {
      Branch(store, head, BranchOf(book.users, book.authorID, id).value)
    }

    /** Saves a version on top of prevPath; `created` is what writing its files to the store gives. */
    method SaveDataset(id: string, prevPath: string, hasBody: bool, hasStructure: bool,
                       created: Option<(Version, map<Component, string>)>, rs: Option<RunState>)
      returns (err: Option<RepoError>)
      requires created.Some? ==> created.value.0.previousPath == prevPath
      modifies this`store, this`head, book
      ensures var refused :=
                if id == "" then Some(NoInitID)
                else if prevPath != "" && prevPath !in old(store) then Some(NotLoaded)
                else if prevPath == "" && !hasBody && !hasStructure then Some(NothingToSave)
                else if name == "" then Some(NoName)
                else if created.None? then Some(CreateFailed)
                else None;
              if refused.Some? then
                err == refused && store == old(store) && head == old(head)
                && book.users == old(book.users) && book.published == old(book.published)
              else
                var ds := created.value.0;
                && store == old(store)[ds.path := Stored(prevPath, created.value.1)]
                && head == Some(ds.path)
                && var o := SaveOutcome(old(book.users), book.authorID, id, ds, rs);
                   && book.Did(o, old(book.published), o.err)
                   && err == (match o.err case None => None case Some(e) => Some(LogFailed(e)))
      ensures err == None && prevPath == HeadPath(old(head)) ==>
                && old(Writable(id)) && Writable(id)
                && View(id) == AfterSave(old(View(id)), created.value.0, created.value.1, rs)
    {
      if id == "" { return Some(NoInitID); }
      if prevPath != "" && prevPath !in store { return Some(NotLoaded); }
      if prevPath == "" && !hasBody && !hasStructure { return Some(NothingToSave); }
      if name == "" { return Some(NoName); }
      if created.None? { return Some(CreateFailed); }
      var ds := created.value.0;
      store := store[ds.path := Stored(prevPath, created.value.1)];
      if prevPath != "" && prevPath != "/" {
        head := None;
      }
      head := Some(ds.path);
      ghost var branch := BranchOf(book.users, book.authorID, id);
      if branch.Ok? && Accepted(Save(ds, rs)) {
        BranchAfterWrite(book.users, book.authorID, id, branch.value + WriteOps(Save(ds, rs)), id);
      }
      var logErr := book.WriteVersionSave(id, ds, rs);
      err := match logErr case None => None case Some(e) => Some(LogFailed(e));
    }

    /** Removes the n newest versions, all of them when n is -1. */
    method RemoveNVersionsFromStore(currPath: string, n: int) returns (err: Option<RepoError>)
      requires Ranked(store, depth)
      modifies this`store, this`head, book
      ensures var refused :=
                if currPath == "" then Some(NeedPath)
                else if n < -1 then Some(BadCount)
                else if currPath !in old(store) then Some(NotLoaded)
                else None;
              if refused.Some? then
                err == refused && store == old(store) && head == old(head)
                && book.users == old(book.users) && book.published == old(book.published)
              else
                var history := History(old(store), depth, currPath);
                && store == Without(old(store), history[..Deleted(n, |history|)])
                && var rewound := if !nameIsValid then Some(InvalidName) else if old(head) == None then Some(NoRef) else None;
                   if rewound.Some? then err == rewound && head == old(head) && book.users == old(book.users)
                   else
                     && head == Some(RewoundTo(history, n))
                     && match initID
                        case None => err == None && book.users == old(book.users)
                        case Some(id) =>
                          var o := DeleteOutcome(old(book.users), book.authorID, id, n);
                          && book.Did(o, old(book.published), o.err)
                          && err == (match o.err case None => None case Some(e) => Some(LogFailed(e)))
      ensures err == None && initID.Some? && Some(currPath) == old(head) ==>
                && old(Writable(initID.value)) && Writable(initID.value)
                && View(initID.value) == AfterRemove(old(View(initID.value)), n, depth)
      ensures old(Removable(currPath)) && n >= -1 ==> err == None
    {
      if initID.Some? && Writable(initID.value) {
        BranchAfterWrite(book.users, book.authorID, initID.value,
                         BranchOf(book.users, book.authorID, initID.value).value + WriteOps(Delete(n)), initID.value);
      }
      if Removable(currPath) && n >= -1 {
        RemovalSucceeds(book.users, book.authorID, initID.value, View(initID.value), n, depth);
      }
      if currPath == "" { return Some(NeedPath); }
      if n < -1 { return Some(BadCount); }
      if currPath !in store { return Some(NotLoaded); }
      var dest := DeleteBack(currPath, n);
      err := RewindDatasetRef(dest);
      if err.Some? { return; }
      if initID.Some? {
        var logErr := book.WriteVersionDelete(initID.value, n);
        err := match logErr case None => None case Some(e) => Some(LogFailed(e));
      }
    }

    /** The dataset has a valid name and a log of this author, its three copies agree, and currPath is
      * its head. */
    ghost predicate Removable(currPath: string)
      reads this, book
    {
      && nameIsValid && head == Some(currPath) && initID.Some?
      && Writable(initID.value) && Agree(View(initID.value), depth)
    }

    /** The countdown of the removal: deletes a version, steps to the one before it, and stops early
      * where there is none to load. Returns the path it stopped at. */
    method DeleteBack(currPath: string, n: int) returns (dest: string)
      requires Ranked(store, depth) && currPath in store && n >= -1
      modifies this`store
      ensures var history := History(old(store), depth, currPath);
              && store == Without(old(store), history[..Deleted(n, |history|)])
              && dest == RewoundTo(history, n)
    {
      ghost var was, history := store, History(store, depth, currPath);
      var ds := store[currPath];
      dest := currPath;
      var i := n;
      ghost var k := 0;
      while i != 0
        invariant 0 <= k < |history|
        invariant i == n - k && (n >= 0 ==> 0 <= i)
        invariant store == Without(was, history[..k])
        invariant dest == history[k] && ds == was[dest]
        decreases |history| - k
      {
        i := i - 1;
        WalkStep(was, depth, currPath, k);
        WithoutNext(was, history, k);
        store := store - {dest};
        if ds.previousPath == "" || ds.previousPath !in store {
          Counted(history, n, k);
          return;
        }
        k := k + 1;
        dest := ds.previousPath;
        ds := store[dest];
      }
      Counted(history, n, k);
    }

    /** Moves the reference back to an older path. */
    method RewindDatasetRef(next: string) returns (err: Option<RepoError>)
      modifies this`head
      ensures err == if !nameIsValid then Some(InvalidName) else if old(head) == None then Some(NoRef) else None
      ensures head == if err == None then Some(next) else old(head)
    {
      if !nameIsValid { return Some(InvalidName); }
      if head.None? { return Some(NoRef); }
      head := None;
      head := Some(next);
      err := None;
    }
  }

  lemma WithoutNext(was: Store, history: seq<string>, k: nat)
    requires k < |history|
    ensures Without(was, history[..k]) - {history[k]} == Without(was, history[..k + 1])
  {
    assert history[..k + 1] == history[..k] + [history[k]];
  }

  /** The countdown has reached its end, or the end of the history. */
  lemma Counted(history: seq<string>, n: int, k: nat)
    requires k < |history|
    ensures n == k ==> Deleted(n, |history|) == k && RewoundTo(history, n) == history[k]
    ensures k + 1 == |history| && (n < 0 || n > k) ==>
              Deleted(n, |history|) == |history| && history[..|history|] == history && RewoundTo(history, n) == history[k]
  {
  }

  /** The walk can go on after a version exactly when the history does, to the history's next
    * version: an ancestor is never one of the versions already deleted. */
  lemma WalkStep(was: Store, depth: string -> nat, path: string, k: nat)
    requires Ranked(was, depth) && k < |History(was, depth, path)|
    ensures var history := History(was, depth, path);
            var prev := was[history[k]].previousPath;
            if k + 1 < |history| then prev != "" && prev in Without(was, history[..k + 1]) && prev == history[k + 1]
            else prev == "" || prev !in Without(was, history[..k + 1])
  {
    var history := History(was, depth, path);
    HistorySuffix(was, depth, path, k);
    HistoryDescends(was, depth, path);
    var prev := was[history[k]].previousPath;
    var rest := if prev == "" then [] else History(was, depth, prev);
    assert history[k..] == [history[k]] + rest;
    if k + 1 < |history| {
      assert history[k + 1] == history[k..][1] == rest[0];
    } else {
      assert |history[k..]| == 1;
    }
  }

  /** On a dataset whose copies agree no removal of -1 or more versions is refused: its path loads, and
    * the logbook can make its event. A partial one leaves the copies in agreement. */
  lemma RemovalSucceeds(users: seq<UserLog>, authorID: string, id: string, b: Branch, n: int, depth: string -> nat)
    requires BranchOf(users, authorID, id) == Ok(b.ops)
    requires Agree(b, depth) && b.head.Some? && n >= -1
    ensures b.head.value != "" && b.head.value in b.store
    ensures DeleteOutcome(users, authorID, id, n).err == None
    ensures 0 <= n < LiveCount(b.ops) ==> Agree(AfterRemove(b, n, depth), depth)
  {
    RemoveKeepsAgreementIff(b, n, depth);
    RemovalIsListed(b.ops, n);
  }

  /** A removal never stops the list its event is made from. */
  lemma RemovalIsListed(ops: seq<Op>, n: int)
    requires WellFormed(ops)
    ensures BranchItems(ops + WriteOps(Delete(n)), EMPTY_REF, 0, -1, false).Some?
  {
    ItemsReplayable(EMPTY_REF, ops, false);
    ItemReplaySnoc(EMPTY_REF, ops, DeleteOp(n), false);
    assert WriteOps(Delete(n)) == [DeleteOp(n)];
  }
}
