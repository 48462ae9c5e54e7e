/** The logbook and its write methods (logbook/logbook.go, logbook/types.go). */
module Logbook {
  import opened Prelude
  import opened DsRef
  import opened OpLog
  import opened Replay
  import opened ReplayAgreement
  import opened LatestPath
  import opened Writes

  // Users, their datasets, the one branch of each dataset, and the writes that append to a branch in
  // place and publish what changed.

  datatype DatasetLog = DatasetLog(id: string, ops: seq<Op>, branches: seq<seq<Op>>)

  datatype UserLog = UserLog(ops: seq<Op>, datasets: seq<DatasetLog>)

  /** The fields of a change event that its listeners read. */
  datatype CommitInfo = CommitInfo(metaTitle: string, commitTime: int, bodySize: int, bodyRows: int, numErrors: int)

  datatype DsChange = DsChange(
    initID: string, topIndex: int, username: string, prettyName: string, headRef: string,
    info: Option<CommitInfo>, dir: string)

  datatype Event = CommitChange(act: DsChange) | DeleteAll(act: DsChange) | CreateLink(act: DsChange)

  datatype WriteError = LogNotFound | BranchCount | AccessDenied | RunMismatch | Panicked

  function ChangeOf(initID: string, topIndex: int, headRef: string, info: Option<CommitInfo>): DsChange {
    DsChange(initID, topIndex, "", "", headRef, info, "")
  }

  function InfoOfVersion(ds: Version): CommitInfo {
    CommitInfo(ds.metaTitle, ds.timestamp, (match ds.bodyLength case None => 0 case Some(n) => n), ds.bodyRows, ds.numErrors)
  }

  function InfoOfItem(item: VersionInfo): CommitInfo {
    CommitInfo("", item.commitTime, item.bodySize, 0, 0)
  }

  // ---- finding and replacing one dataset log ----

  function FindDataset(datasets: seq<DatasetLog>, id: string): (i: int)
    ensures -1 <= i < |datasets|
    ensures i >= 0 ==> datasets[i].id == id
    ensures i == -1 ==> forall d | d in datasets :: d.id != id
  {
    if datasets == [] then -1
    else if datasets[0].id == id then 0
    else var i := FindDataset(datasets[1..], id); if i == -1 then -1 else i + 1
  }

  /** The dataset log with this ID, in store order. */
  function DatasetOf(users: seq<UserLog>, id: string): Option<DatasetLog> {
    if users == [] then None
    else
      var i := FindDataset(users[0].datasets, id);
      if i >= 0 then Some(users[0].datasets[i]) else DatasetOf(users[1..], id)
  }

  /** The book with that log replaced; unchanged when no log has the ID. */
  function WithDataset(users: seq<UserLog>, id: string, d: DatasetLog): (users': seq<UserLog>)
    ensures |users'| == |users|
  {
    if users == [] then []
    else
      var i := FindDataset(users[0].datasets, id);
      if i >= 0 then [users[0].(datasets := users[0].datasets[i := d])] + users[1..]
      else [users[0]] + WithDataset(users[1..], id, d)
  }

  lemma FindAfterReplace(datasets: seq<DatasetLog>, id: string, d: DatasetLog, other: string)
    requires d.id == id && FindDataset(datasets, id) >= 0
    ensures var i := FindDataset(datasets, id); FindDataset(datasets[i := d], other) == FindDataset(datasets, other)
  {
    if datasets[0].id == id {
      assert datasets[0 := d][1..] == datasets[1..];
    } else {
      var i := FindDataset(datasets, id);
      assert datasets[i := d][1..] == datasets[1..][i - 1 := d];
      FindAfterReplace(datasets[1..], id, d, other);
    }
  }

  /** A replaced log is found again, and every other log is untouched. */
  lemma {:induction false} WithDatasetFinds(users: seq<UserLog>, id: string, d: DatasetLog, other: string)
    requires d.id == id && DatasetOf(users, id).Some?
    ensures DatasetOf(WithDataset(users, id, d), other) == if other == id then Some(d) else DatasetOf(users, other)
  {
    var i := FindDataset(users[0].datasets, id);
    if i >= 0 {
      FindAfterReplace(users[0].datasets, id, d, other);
    } else {
      WithDatasetFinds(users[1..], id, d, other);
    }
  }

  /** The branch an author may write to, or the error the write methods return instead. */
  function BranchOf(users: seq<UserLog>, authorID: string, id: string): Result<seq<Op>, WriteError> {
    match DatasetOf(users, id)
    case None => Err(LogNotFound)
    case Some(d) =>
      if |d.branches| != 1 then Err(BranchCount)
      else if d.branches[0] == [] then Err(Panicked)
      else if d.branches[0][0].authorID != authorID then Err(AccessDenied)
      else Ok(d.branches[0])
  }

  function WithBranch(users: seq<UserLog>, id: string, ops: seq<Op>): seq<UserLog> {
    match DatasetOf(users, id)
    case None => users
    case Some(d) => WithDataset(users, id, d.(branches := [ops]))
  }

  lemma BranchAfterWrite(users: seq<UserLog>, authorID: string, id: string, ops: seq<Op>, other: string)
    requires BranchOf(users, authorID, id).Ok? && ops != [] && ops[0].authorID == authorID
    ensures BranchOf(WithBranch(users, id, ops), authorID, other) ==
            if other == id then Ok(ops) else BranchOf(users, authorID, other)
  {
    var d := DatasetOf(users, id).value;
    DatasetHasItsID(users, id);
    WithDatasetFinds(users, id, d.(branches := [ops]), other);
  }

  lemma {:induction false} DatasetHasItsID(users: seq<UserLog>, id: string)
    requires DatasetOf(users, id).Some?
    ensures DatasetOf(users, id).value.id == id
  {
    if FindDataset(users[0].datasets, id) < 0 { DatasetHasItsID(users[1..], id); }
  }

  /** BranchLog.Append: ops of a model that does not belong on a branch are dropped. */
  function Appended(ops: seq<Op>, op: Op): seq<Op> {
    if op.model == BranchModel || op.model == CommitModel || op.model == PushModel || op.model == RunModel
    then ops + [op] else ops
  }

  /** The whole effect of one write on the book and on the events it has published. */
  datatype Outcome = Outcome(users: seq<UserLog>, published: seq<Event>, err: Option<WriteError>)

  function SaveOutcome(users: seq<UserLog>, authorID: string, id: string, ds: Version, rs: Option<RunState>): Outcome {
    match BranchOf(users, authorID, id)
    case Err(e) => Outcome(users, [], Some(e))
    case Ok(ops) =>
      if !Accepted(Save(ds, rs)) then Outcome(users, [], Some(RunMismatch))
      else
        var ops' := ops + WriteOps(Save(ds, rs));
        Outcome(WithBranch(users, id, ops'),
                [CommitChange(ChangeOf(id, |ops'| - 1, ds.path, Some(InfoOfVersion(ds))))], None)
  }

  function DeleteOutcome(users: seq<UserLog>, authorID: string, id: string, revisions: int): Outcome {
    match BranchOf(users, authorID, id)
    case Err(e) => Outcome(users, [], Some(e))
    case Ok(ops) =>
      var ops' := ops + WriteOps(Delete(revisions));
      var users' := WithBranch(users, id, ops');
      match BranchItems(ops', EMPTY_REF, 0, -1, false)
      case None => Outcome(users', [], Some(Panicked))
      case Some(items) =>
        if items == [] then Outcome(users', [], None)
        else
          var last := items[|items| - 1];
          Outcome(users', [CommitChange(ChangeOf(id, |items|, last.path, Some(InfoOfItem(last))))], None)
  }

  /** The writes that publish nothing: runs, amends, pushes and unpublishes. */
  function QuietOutcome(users: seq<UserLog>, authorID: string, id: string, w: Write): Outcome {
    match BranchOf(users, authorID, id)
    case Err(e) => Outcome(users, [], Some(e))
    case Ok(ops) => Outcome(WithBranch(users, id, ops + WriteOps(w)), [], None)
  }

  function DatasetDeleteOutcome(users: seq<UserLog>, authorID: string, id: string, timestamp: int): Outcome {
    match DatasetOf(users, id)
    case None => Outcome(users, [], Some(LogNotFound))
    case Some(d) =>
      if d.ops == [] then Outcome(users, [], Some(Panicked))
      else if d.ops[0].authorID != authorID then Outcome(users, [], Some(AccessDenied))
      else
        Outcome(WithDataset(users, id, d.(ops := d.ops + [DatasetRemoveOp(timestamp)])),
                [DeleteAll(ChangeOf(id, 0, "", None))], None)
  }

  function DatasetRemoveOp(timestamp: int): Op {
    Op(Remove, DatasetModel, "", "", [], "", "", timestamp, 0, "")
  }

  /** What may be written: a log that exists, has one branch, and whose branch the author began. */
  lemma Refusals(users: seq<UserLog>, authorID: string, id: string, w: Write, timestamp: int)
    ensures var refused :=
              (match DatasetOf(users, id)
               case None => Some(LogNotFound)
               case Some(d) =>
                 if |d.branches| != 1 then Some(BranchCount)
                 else if d.branches[0] == [] then Some(Panicked)
                 else if d.branches[0][0].authorID != authorID then Some(AccessDenied)
                 else None);
            && (w.Save? ==>
                  SaveOutcome(users, authorID, id, w.ds, w.run).err ==
                  if refused.Some? then refused
                  else if w.run.Some? && w.run.value.id != w.ds.runID then Some(RunMismatch) else None)
            && QuietOutcome(users, authorID, id, w).err == refused
            && (w.Delete? && refused.Some? ==> DeleteOutcome(users, authorID, id, w.revisions).err == refused)
    ensures DatasetDeleteOutcome(users, authorID, id, timestamp).err ==
            match DatasetOf(users, id)
            case None => Some(LogNotFound)
            case Some(d) =>
              if d.ops == [] then Some(Panicked) else if d.ops[0].authorID != authorID then Some(AccessDenied) else None
  {
  }

  /** A refused write changes and publishes nothing. */
  lemma RefusedChangesNothing(users: seq<UserLog>, authorID: string, id: string, w: Write, timestamp: int)
    ensures BranchOf(users, authorID, id).Err? ==> Written(users, authorID, id, w) == users
    ensures BranchOf(users, authorID, id).Err? && w.Save? ==> SaveOutcome(users, authorID, id, w.ds, w.run).published == []
    ensures BranchOf(users, authorID, id).Err? && w.Delete? ==> DeleteOutcome(users, authorID, id, w.revisions).published == []
    ensures QuietOutcome(users, authorID, id, w).published == []
    ensures w.Save? && SaveOutcome(users, authorID, id, w.ds, w.run).err.Some? ==>
              SaveOutcome(users, authorID, id, w.ds, w.run) == Outcome(users, [], SaveOutcome(users, authorID, id, w.ds, w.run).err)
    ensures var o := DatasetDeleteOutcome(users, authorID, id, timestamp); o.err.Some? ==> o.users == users && o.published == []
  {
  }

  /** No write changes a dataset other than its own, or one whose branch another author began. */
  lemma OthersStay(users: seq<UserLog>, authorID: string, id: string, w: Write, other: string)
    requires other != id || (match DatasetOf(users, id)
                             case None => true
                             case Some(d) => |d.branches| == 1 && d.branches[0] != [] ==> d.branches[0][0].authorID != authorID)
    ensures DatasetOf(Written(users, authorID, id, w), other) == DatasetOf(users, other)
  {
    RefusedChangesNothing(users, authorID, id, w, 0);
    if BranchOf(users, authorID, id).Ok? {
      var ops := BranchOf(users, authorID, id).value + WriteOps(w);
      WrittenIsAppended(users, authorID, id, w);
      DatasetHasItsID(users, id);
      WithDatasetFinds(users, id, DatasetOf(users, id).value.(branches := [ops]), other);
    }
  }

  /** The ops a branch log refuses are those of authors, datasets and access control. */
  lemma AppendDropsIff(ops: seq<Op>, op: Op)
    ensures Appended(ops, op) == ops + [op] <==> op.model != AuthorModel && op.model != DatasetModel && op.model != ACLModel
    ensures Appended(ops, op) == ops <==> op.model == AuthorModel || op.model == DatasetModel || op.model == ACLModel
  {
    assert |ops + [op]| != |ops|;
  }

  /** The event of a version delete. On paired logs with distinct paths, amended only before anything
    * was removed, it names the version saved first of all, with the number of versions left as its index
    * and the time and size of that version; nothing is published when none is left. So it names the
    * newest live version exactly when that is the only one left. */
  lemma DeleteEventNamesOldest(users: seq<UserLog>, authorID: string, id: string, n: int, ops: seq<Op>)
    requires BranchOf(users, authorID, id) == Ok(ops)
    requires WellFormed(ops) && Paired(ops) && Permitted(ops, Delete(n))
    requires RemovedBeforeAmend(ops) == 0 && Distinct(SavedPaths(ops))
    ensures PathStack(ops + WriteOps(Delete(n))).Some?
    ensures var (o, live) := (DeleteOutcome(users, authorID, id, n), PathStack(ops + WriteOps(Delete(n))).value);
            && o.err == None
            && (live == [] ==> o.published == [])
            && (live != [] ==>
                  && |o.published| == 1 && o.published[0].CommitChange? && SavedPaths(ops) != []
                  && var act := o.published[0].act;
                     && act.initID == id && act.headRef == SavedPaths(ops)[0] && act.topIndex == |live|
                     && (act.headRef == Top(live) <==> live == [SavedPaths(ops)[0]]))
  {
    var ops' := ops + WriteOps(Delete(n));
    RemovalKeepsSaved(ops, n);
    LastItemIsOldest(ops');
    if PathStack(ops').value != [] { OldestIsNewestIff(ops'); }
  }

  /** The details it carries are those of the last item. */
  lemma DeleteEventTells(users: seq<UserLog>, authorID: string, id: string, n: int, ops: seq<Op>)
    requires BranchOf(users, authorID, id) == Ok(ops)
    ensures var (o, items) := (DeleteOutcome(users, authorID, id, n), BranchItems(ops + WriteOps(Delete(n)), EMPTY_REF, 0, -1, false));
            items.Some? && items.value != [] ==>
            && |o.published| == 1
            && var oldest := items.value[|items.value| - 1];
               o.published[0].act.info == Some(CommitInfo("", oldest.commitTime, oldest.bodySize, 0, 0))
  {
  }

  class Book {
    var users: seq<UserLog>
    var published: seq<Event>
    const authorID: string

    constructor (authorID: string, users: seq<UserLog>)
      ensures this.authorID == authorID && this.users == users && published == []
    {
      this.authorID := authorID;
      this.users := users;
      published := [];
    }

    ghost predicate Did(o: Outcome, was: seq<Event>, err: Option<WriteError>)
      reads this
    {
      users == o.users && published == was + o.published && err == o.err
    }

    /** Appends to a branch already known to be writable; returns the index of the newest op. */
    method Append(id: string, op: Op) returns (index: int)
      requires BranchOf(users, authorID, id).Ok?
      modifies this`users
      ensures var ops := Appended(BranchOf(old(users), authorID, id).value, op);
              users == WithBranch(old(users), id, ops) && index == |ops| - 1
              && BranchOf(users, authorID, id) == Ok(ops)
    {
      var ops := BranchOf(users, authorID, id).value;
      if op.model == BranchModel || op.model == CommitModel || op.model == PushModel || op.model == RunModel {
        ops := ops + [op];
      }
      BranchAfterWrite(users, authorID, id, ops, id);
      users := WithBranch(users, id, ops);
      index := |ops| - 1;
    }

    method WriteVersionSave(id: string, ds: Version, rs: Option<RunState>) returns (err: Option<WriteError>)
      modifies this
      ensures Did(SaveOutcome(old(users), authorID, id, ds, rs), old(published), err)
    {
      var branch := BranchOf(users, authorID, id);
      if branch.Err? { return Some(branch.error); }
      if rs.Some? {
        if rs.value.id != ds.runID { return Some(RunMismatch); }
        var _ := Append(id, RunOp(rs.value));
        WithBranchTwice(old(users), id, branch.value + [RunOp(rs.value)], branch.value + [RunOp(rs.value)] + [SaveOp(ds)]);
      }
      ghost var before := BranchOf(users, authorID, id).value;
      var topIndex := Append(id, SaveOp(ds));
      SaveAppends(old(users), authorID, id, ds, rs, before + [SaveOp(ds)]);
      published := published + [CommitChange(ChangeOf(id, topIndex, ds.path, Some(InfoOfVersion(ds))))];
      err := None;
    }

    method WriteTransformRun(id: string, rs: RunState) returns (err: Option<WriteError>)
      modifies this
      ensures Did(QuietOutcome(old(users), authorID, id, TransformRun(rs)), old(published), err)
    {
      var branch := BranchOf(users, authorID, id);
      if branch.Err? { return Some(branch.error); }
      var _ := Append(id, RunOp(rs));
      err := None;
    }

    method WriteVersionAmend(id: string, ds: Version) returns (err: Option<WriteError>)
      modifies this
      ensures Did(QuietOutcome(old(users), authorID, id, AmendHead(ds)), old(published), err)
    {
      var branch := BranchOf(users, authorID, id);
      if branch.Err? { return Some(branch.error); }
      var _ := Append(id, AmendOp(ds));
      err := None;
    }

    method WriteVersionDelete(id: string, revisions: int) returns (err: Option<WriteError>)
      modifies this
      ensures Did(DeleteOutcome(old(users), authorID, id, revisions), old(published), err)
    {
      var branch := BranchOf(users, authorID, id);
      if branch.Err? { return Some(branch.error); }
      var _ := Append(id, DeleteOp(revisions));
      var items := BranchToVersionInfos(branch.value + [DeleteOp(revisions)], EMPTY_REF, 0, -1, false);
      if items.None? { return Some(Panicked); }
      if |items.value| > 0 {
        var lastItem := items.value[|items.value| - 1];
        published := published + [CommitChange(ChangeOf(id, |items.value|, lastItem.path, Some(InfoOfItem(lastItem))))];
      }
      err := None;
    }

    /** Marks a number of versions as pushed to a remote; the rollback takes the mark back. */
    method WriteRemotePush(id: string, revisions: int, remote: string, timestamp: int)
      returns (rollback: Option<Rollback>, err: Option<WriteError>)
      modifies this
      ensures Did(QuietOutcome(old(users), authorID, id, Push(revisions, remote, timestamp)), old(published), err)
      ensures rollback.Some? <==> err.None?
      ensures rollback.Some? ==> fresh(rollback.value) && rollback.value.book == this && rollback.value.id == id && !rollback.value.done
    {
      rollback := None;
      var branch := BranchOf(users, authorID, id);
      if branch.Err? { err := Some(branch.error); return; }
      var _ := Append(id, RemoteOp(Init, revisions, remote, timestamp));
      var r := new Rollback(this, id);
      rollback, err := Some(r), None;
    }

    method WriteRemoteDelete(id: string, revisions: int, remote: string, timestamp: int)
      returns (rollback: Option<Rollback>, err: Option<WriteError>)
      modifies this
      ensures Did(QuietOutcome(old(users), authorID, id, Unpublish(revisions, remote, timestamp)), old(published), err)
      ensures rollback.Some? <==> err.None?
      ensures rollback.Some? ==> fresh(rollback.value) && rollback.value.book == this && rollback.value.id == id && !rollback.value.done
    {
      rollback := None;
      var branch := BranchOf(users, authorID, id);
      if branch.Err? { err := Some(branch.error); return; }
      var _ := Append(id, RemoteOp(Remove, revisions, remote, timestamp));
      var r := new Rollback(this, id);
      rollback, err := Some(r), None;
    }

    method WriteDatasetDelete(id: string, timestamp: int) returns (err: Option<WriteError>)
      modifies this
      ensures Did(DatasetDeleteOutcome(old(users), authorID, id, timestamp), old(published), err)
    {
      var found := DatasetOf(users, id);
      if found.None? { return Some(LogNotFound); }
      var d := found.value;
      if d.ops == [] { return Some(Panicked); }
      if d.ops[0].authorID != authorID { return Some(AccessDenied); }
      users := WithDataset(users, id, d.(ops := d.ops + [DatasetRemoveOp(timestamp)]));
      published := published + [DeleteAll(ChangeOf(id, 0, "", None))];
      err := None;
    }
  }

  lemma SaveAppends(users: seq<UserLog>, authorID: string, id: string, ds: Version, rs: Option<RunState>, after: seq<Op>)
    requires BranchOf(users, authorID, id).Ok? && Accepted(Save(ds, rs))
    requires var ops := BranchOf(users, authorID, id).value;
             after == (match rs case None => ops case Some(run) => ops + [RunOp(run)]) + [SaveOp(ds)]
    ensures SaveOutcome(users, authorID, id, ds, rs) ==
            Outcome(WithBranch(users, id, after), [CommitChange(ChangeOf(id, |after| - 1, ds.path, Some(InfoOfVersion(ds))))], None)
  {
    var ops := BranchOf(users, authorID, id).value;
    assert after == ops + WriteOps(Save(ds, rs));
  }

  lemma {:induction false} WithDatasetTwice(users: seq<UserLog>, id: string, a: DatasetLog, b: DatasetLog)
    requires a.id == b.id == id && DatasetOf(users, id).Some?
    ensures WithDataset(WithDataset(users, id, a), id, b) == WithDataset(users, id, b)
  {
    var i := FindDataset(users[0].datasets, id);
    if i >= 0 {
      FindAfterReplace(users[0].datasets, id, a, id);
      assert users[0].datasets[i := a][i := b] == users[0].datasets[i := b];
      assert WithDataset(users, id, a)[1..] == users[1..];
    } else {
      assert WithDataset(users, id, a)[1..] == WithDataset(users[1..], id, a);
      WithDatasetTwice(users[1..], id, a, b);
    }
  }

  lemma WithBranchTwice(users: seq<UserLog>, id: string, a: seq<Op>, b: seq<Op>)
    ensures WithBranch(WithBranch(users, id, a), id, b) == WithBranch(users, id, b)
  {
    if DatasetOf(users, id).Some? {
      var d := DatasetOf(users, id).value;
      DatasetHasItsID(users, id);
      WithDatasetFinds(users, id, d.(branches := [a]), id);
      WithDatasetTwice(users, id, d.(branches := [a]), d.(branches := [b]));
    }
  }

  /** The function returned by a push: it drops the newest op of the branch, once, and returns the
    * outcome of that every time. */
  class Rollback {
    const book: Book
    const id: string
    var done: bool
    var rollbackError: Option<WriteError>

    constructor (book: Book, id: string)
      ensures this.book == book && this.id == id && !done && rollbackError == None
    {
      this.book, this.id, done, rollbackError := book, id, false, None;
    }

    method Call() returns (err: Option<WriteError>)
      modifies this`done, this`rollbackError, book`users
      ensures done && err == rollbackError
      ensures old(done) ==> book.users == old(book.users) && rollbackError == old(rollbackError)
      ensures !old(done) ==>
                && book.users == RolledBack(old(book.users), id)
                && err == (match BranchAnyAuthor(old(book.users), id) case Err(e) => Some(e) case Ok(_) => None)
    {
      if !done {
        done := true;
        var branch := BranchAnyAuthor(book.users, id);
        if branch.Err? {
          rollbackError := Some(branch.error);
        } else {
          var ops := branch.value;
          book.users := WithBranch(book.users, id, ops[..|ops| - 1]);
          rollbackError := None;
        }
      }
      err := rollbackError;
    }
  }

  /** A branch looked up without the write check. */
  function BranchAnyAuthor(users: seq<UserLog>, id: string): (r: Result<seq<Op>, WriteError>)
    ensures r.Ok? ==> |r.value| > 0
  {
    match DatasetOf(users, id)
    case None => Err(LogNotFound)
    case Some(d) =>
      if |d.branches| != 1 then Err(BranchCount)
      else if d.branches[0] == [] then Err(Panicked)
      else Ok(d.branches[0])
  }

  /** The book without the newest op of a branch. */
  function RolledBack(users: seq<UserLog>, id: string): seq<UserLog> {
    match BranchAnyAuthor(users, id)
    case Err(_) => users
    case Ok(ops) => WithBranch(users, id, ops[..|ops| - 1])
  }

  /** The book after a write to a branch, and after a run of them. */
  function Written(users: seq<UserLog>, authorID: string, id: string, w: Write): seq<UserLog> {
    match w
    case Save(ds, run) => SaveOutcome(users, authorID, id, ds, run).users
    case Delete(revisions) => DeleteOutcome(users, authorID, id, revisions).users
    case _ => QuietOutcome(users, authorID, id, w).users
  }

  function WrittenAll(users: seq<UserLog>, authorID: string, id: string, ws: seq<Write>): seq<UserLog> {
    if ws == [] then users else Written(WrittenAll(users, authorID, id, ws[..|ws| - 1]), authorID, id, ws[|ws| - 1])
  }

  lemma WrittenIsAppended(users: seq<UserLog>, authorID: string, id: string, w: Write)
    requires BranchOf(users, authorID, id).Ok?
    ensures Written(users, authorID, id, w) == WithBranch(users, id, BranchOf(users, authorID, id).value + WriteOps(w))
  {
    if w.Save? && !Accepted(w) {
      var ops, d := BranchOf(users, authorID, id).value, DatasetOf(users, id).value;
      assert ops + [] == ops && d.(branches := [ops]) == d;
      WithDatasetSame(users, id);
    }
  }

  /** A run of writes by the author appends its ops to the branch, and changes nothing else. */
  lemma {:induction false} AllWritesAppend(users: seq<UserLog>, authorID: string, id: string, ws: seq<Write>)
    requires BranchOf(users, authorID, id).Ok?
    ensures var after := AfterWrites(BranchOf(users, authorID, id).value, ws);
            && WrittenAll(users, authorID, id, ws) == WithBranch(users, id, after)
            && BranchOf(WrittenAll(users, authorID, id, ws), authorID, id) == Ok(after)
            && after != [] && after[0].authorID == authorID
  {
    var ops := BranchOf(users, authorID, id).value;
    if ws == [] {
      assert DatasetOf(users, id).value.(branches := [ops]) == DatasetOf(users, id).value;
      WithDatasetSame(users, id);
    } else {
      var before, w := ws[..|ws| - 1], ws[|ws| - 1];
      AllWritesAppend(users, authorID, id, before);
      WrittenIsAppended(WrittenAll(users, authorID, id, before), authorID, id, w);
      WithBranchTwice(users, id, AfterWrites(ops, before), AfterWrites(ops, ws));
      BranchAfterWrite(users, authorID, id, AfterWrites(ops, ws), id);
    }
  }

  /** A push, any further writes to the branch, and the push's rollback leave the book as those writes
    * alone would have, exactly when they wrote nothing, or nothing but copies of the push's op: the
    * rollback drops the newest op, whatever it is. */
  lemma RollbackUndoesPushIff(users: seq<UserLog>, authorID: string, id: string, push: Write, since: seq<Write>)
    requires (push.Push? || push.Unpublish?) && BranchOf(users, authorID, id).Ok?
    ensures var pushed := Written(users, authorID, id, push);
            RolledBack(WrittenAll(pushed, authorID, id, since), id) == WrittenAll(users, authorID, id, since)
            <==> forall op | op in AfterWrites([], since) :: op == WriteOps(push)[0]
  {
    var ops, op, written := BranchOf(users, authorID, id).value, WriteOps(push)[0], AfterWrites([], since);
    var now := ops + [op] + written;
    WritesAppend(ops, since);
    AllWritesAppend(users, authorID, id, since);
    PushedThenWritten(users, authorID, id, push, since, now);
    DropsPushIff(ops, op, written);
    SameBranchIff(users, id, now[..|now| - 1], ops + written);
  }

  lemma PushedThenWritten(users: seq<UserLog>, authorID: string, id: string, push: Write, since: seq<Write>, now: seq<Op>)
    requires (push.Push? || push.Unpublish?) && BranchOf(users, authorID, id).Ok?
    requires now == BranchOf(users, authorID, id).value + [WriteOps(push)[0]] + AfterWrites([], since)
    ensures RolledBack(WrittenAll(Written(users, authorID, id, push), authorID, id, since), id) ==
            WithBranch(users, id, now[..|now| - 1])
  {
    var pushed, withPush := Written(users, authorID, id, push), BranchOf(users, authorID, id).value + [WriteOps(push)[0]];
    WrittenIsAppended(users, authorID, id, push);
    assert BranchOf(users, authorID, id).value + WriteOps(push) == withPush;
    BranchAfterWrite(users, authorID, id, withPush, id);
    AllWritesAppend(pushed, authorID, id, since);
    WritesAppend(withPush, since);
    WithBranchTwice(users, id, withPush, now);
    DropsNewest(users, WrittenAll(pushed, authorID, id, since), authorID, id, now);
  }

  lemma DropsNewest(users: seq<UserLog>, after: seq<UserLog>, authorID: string, id: string, ops: seq<Op>)
    requires after == WithBranch(users, id, ops) && BranchOf(after, authorID, id) == Ok(ops) && ops != []
    ensures RolledBack(after, id) == WithBranch(users, id, ops[..|ops| - 1])
  {
    WithBranchTwice(users, id, ops, ops[..|ops| - 1]);
  }

  lemma SameBranchIff(users: seq<UserLog>, id: string, a: seq<Op>, b: seq<Op>)
    requires DatasetOf(users, id).Some?
    ensures WithBranch(users, id, a) == WithBranch(users, id, b) <==> a == b
  {
    var d := DatasetOf(users, id).value;
    DatasetHasItsID(users, id);
    WithDatasetFinds(users, id, d.(branches := [a]), id);
    WithDatasetFinds(users, id, d.(branches := [b]), id);
    assert [a] == [b] ==> a == [a][0] == [b][0] == b;
  }

  /** So a push followed at once by its rollback leaves the whole book as it was. */
  lemma RollbackRestoresBook(users: seq<UserLog>, authorID: string, id: string, push: Write)
    requires (push.Push? || push.Unpublish?) && BranchOf(users, authorID, id).Ok?
    ensures RolledBack(Written(users, authorID, id, push), id) == users
  {
    RollbackUndoesPushIff(users, authorID, id, push, []);
  }

  lemma {:induction false} WithDatasetSame(users: seq<UserLog>, id: string)
    requires DatasetOf(users, id).Some?
    ensures WithDataset(users, id, DatasetOf(users, id).value) == users
  {
    var i := FindDataset(users[0].datasets, id);
    if i >= 0 {
      assert users[0].datasets[i := users[0].datasets[i]] == users[0].datasets;
    } else {
      WithDatasetSame(users[1..], id);
    }
  }
}
