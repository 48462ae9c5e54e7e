/** What a rebuilt dscache says of each dataset: its newest version, its name, and whose it is
  * (dscache/convert.go, logbook/logbook.go). */
module CacheContents {
  import opened Prelude
  import opened OpLog
  import opened LatestPath
  import opened Writes
  import opened Logbook
  import opened CacheConvert

  // ---- the head ----

  /** A branch that holds saves and version removals alone, after its first op. */
  predicate SavesAndRemovals(ops: seq<Op>) {
    ops != [] && ops[0].model == BranchModel && ops[0].typ == Init &&
    forall i :: 0 < i < |ops| ==> IsSave(ops[i]) || IsCommitRemove(ops[i])
  }

  /** On such a branch the refs that remain are the first op's and, in order, the live versions'. */
  lemma {:induction false} RefsAreLiveVersions(ops: seq<Op>)
    requires SavesAndRemovals(ops) && PathStack(ops).Some?
    ensures RefStack(ops) == Some([ops[0].ref] + PathStack(ops).value)
  {
    var rest, op := ops[..|ops| - 1], ops[|ops| - 1];
    if rest == [] {
      assert PathStack(rest) == Some([]) && RefStack(rest) == Some([]);
      assert [] + [op.ref] == [op.ref] + [];
    } else {
      RefsAreLiveVersions(rest);
      var live := PathStack(rest).value;
      if IsSave(op) {
        assert [ops[0].ref] + live + [op.ref] == [ops[0].ref] + (live + [op.ref]);
      } else {
        assert ([ops[0].ref] + live)[..|live| + 1 - op.size] == [ops[0].ref] + live[..|live| - op.size];
      }
    }
  }

  /** So a rebuild shows the newest live version, and how many are live. */
  lemma RebuiltHeadIsNewest(ops: seq<Op>)
    requires SavesAndRemovals(ops) && PathStack(ops).Some?
    ensures IndexAndRef(ops) == Some((LiveCount(ops), if LiveCount(ops) == 0 then ops[0].ref else Top(PathStack(ops).value)))
  {
    RefsAreLiveVersions(ops);
  }

  /** An unpublish takes as many refs off the index as a removal of as many versions would. */
  lemma UnpublishCountsAsRemoval(ops: seq<Op>, n: int, remote: string, timestamp: int)
    ensures RefStack(ops + WriteOps(Unpublish(n, remote, timestamp))) == RefStack(ops + WriteOps(Delete(n)))
    ensures RefStack(ops).Some? ==>
              RefStack(ops + WriteOps(Push(n, remote, timestamp))) == Some(RefStack(ops).value + [""])
  {
    var unpublish, push := RemoteOp(Remove, n, remote, timestamp), RemoteOp(Init, n, remote, timestamp);
    assert WriteOps(Unpublish(n, remote, timestamp)) == [unpublish] && WriteOps(Delete(n)) == [DeleteOp(n)];
    assert WriteOps(Push(n, remote, timestamp)) == [push];
    assert (ops + [unpublish])[..|ops|] == ops && (ops + [DeleteOp(n)])[..|ops|] == ops && (ops + [push])[..|ops|] == ops;
  }

  // ---- the name ----

  /** The op WriteDatasetRename appends to a dataset log. */
  function RenameOp(name: string, timestamp: int): Op {
    Op(Amend, DatasetModel, "", "", [], name, "", timestamp, 0, "")
  }

  /** A rename shows in the name alone. */
  lemma RenameShows(profileID: string, d: DatasetLog, name: string, timestamp: int)
    requires DatasetInfos(profileID, d).Some?
    ensures var before, after := DatasetInfos(profileID, d).value, DatasetInfos(profileID, d.(ops := d.ops + [RenameOp(name, timestamp)]));
            after == Some(if before == [] then [] else [before[0].(name := name)])
  {
    var op := RenameOp(name, timestamp);
    var ops' := d.ops + [op];
    assert ops'[|d.ops|] == op;
    assert CacheConvert.Listed(ops') <==> CacheConvert.Listed(d.ops) by {
      assert forall o :: o in ops' <==> o in d.ops || o == op;
    }
  }

  // ---- whose datasets are listed ----

  /** What a rebuild says of a dataset of a user. */
  ghost predicate Describes(i: EntryInfo, u: UserLog, d: DatasetLog) {
    && u.ops != [] && i.profileID == u.ops[0].authorID && i.initID == d.id
    && (forall op :: op in d.ops ==> op.model == DatasetModel && op.typ != Remove)
    && |d.branches| == 1 && IndexAndRef(d.branches[0]) == Some((i.topIndex, i.path)) && i.cursorIndex == i.topIndex
    && i.name == if d.ops == [] then "" else d.ops[|d.ops| - 1].name
  }

  lemma DatasetInfosIff(profileID: string, u: UserLog, d: DatasetLog, i: EntryInfo)
    requires DatasetInfos(profileID, d).Some? && u.ops != [] && profileID == u.ops[0].authorID
    ensures i in DatasetInfos(profileID, d).value <==> Describes(i, u, d)
  {
  }

  lemma {:induction false} UserInfosIff(profileID: string, u: UserLog, datasets: seq<DatasetLog>, i: EntryInfo)
    requires UserInfos(profileID, datasets).Some? && u.ops != [] && profileID == u.ops[0].authorID
    ensures i in UserInfos(profileID, datasets).value <==> exists d :: d in datasets && Describes(i, u, d)
  {
    if datasets != [] {
      DatasetInfosIff(profileID, u, datasets[0], i);
      UserInfosIff(profileID, u, datasets[1..], i);
      assert forall d :: d in datasets <==> d == datasets[0] || d in datasets[1..];
    }
  }

  /** A rebuild lists a dataset exactly when some user's log holds it, its log was not ended, and it has
    * one branch; under the user's profile, the last name the dataset was given, and the newest ref. */
  lemma {:induction false} BookInfosIff(users: seq<UserLog>, i: EntryInfo)
    requires BookInfos(users).Some?
    ensures i in BookInfos(users).value <==> exists u, d :: u in users && d in u.datasets && Describes(i, u, d)
  {
    if users != [] {
      var u := users[0];
      if u.ops != [] { UserInfosIff(u.ops[0].authorID, u, u.datasets, i); }
      BookInfosIff(users[1..], i);
      assert forall v :: v in users <==> v == u || v in users[1..];
    }
  }
}
