/** The ops each logbook write appends to a branch, and what any run of writes keeps
  * (logbook/logbook.go, logbook/types.go). */
module Writes {
  import opened Prelude
  import opened DsRef
  import opened OpLog
  import opened Replay
  import opened LatestPath
  import opened ReplayAgreement

  /** The parts of a saved dataset version that its commit op and its change event record. */
  datatype Version = Version(
    path: string, previousPath: string, timestamp: int, title: string, runID: string, bodyLength: Option<int>,
    metaTitle: string, bodyRows: int, numErrors: int)

  datatype RunState = RunState(id: string, number: string, duration: int, status: string, startTime: Option<int>)

  datatype Write =
    | Save(ds: Version, run: Option<RunState>)
    | TransformRun(rs: RunState)
    | AmendHead(ds: Version)
    | Delete(revisions: int)
    | Push(revisions: int, remote: string, timestamp: int)
    | Unpublish(revisions: int, remote: string, timestamp: int)

  function SaveOp(ds: Version): Op {
    Op(Init, CommitModel, ds.path, ds.previousPath,
       if ds.runID != "" then [RUN_ID_REL_PREFIX + ds.runID] else [],
       "", "", ds.timestamp, (match ds.bodyLength case None => 0 case Some(n) => n), ds.title)
  }

  function RunOp(rs: RunState): Op {
    Op(Init, RunModel, rs.id, "", [], rs.number, "",
       (match rs.startTime case None => 0 case Some(t) => t), rs.duration, rs.status)
  }

  function AmendOp(ds: Version): Op {
    Op(Amend, CommitModel, ds.path, ds.previousPath, [], "", "", ds.timestamp, 0, ds.title)
  }

  function DeleteOp(revisions: int): Op {
    Op(Remove, CommitModel, "", "", [], "", "", 0, revisions, "")
  }

  function RemoteOp(typ: OpType, revisions: int, remote: string, timestamp: int): Op {
    Op(typ, PushModel, "", "", [remote], "", "", timestamp, revisions, "")
  }

  /** A save that names a run must carry that run's ID. */
  predicate Accepted(w: Write) {
    w.Save? && w.run.Some? ==> w.run.value.id == w.ds.runID
  }

  /** The ops a write appends; a rejected save appends none. */
  function WriteOps(w: Write): seq<Op> {
    match w
    case Save(ds, run) =>
      if !Accepted(w) then []
      else (match run case None => [] case Some(rs) => [RunOp(rs)]) + [SaveOp(ds)]
    case TransformRun(rs) => [RunOp(rs)]
    case AmendHead(ds) => [AmendOp(ds)]
    case Delete(n) => [DeleteOp(n)]
    case Push(n, remote, t) => [RemoteOp(Init, n, remote, t)]
    case Unpublish(n, remote, t) => [RemoteOp(Remove, n, remote, t)]
  }

  /** What a caller can check before a write: counts within the live versions, and a save made
    * without its run does not name a run the log has seen. */
  predicate Permitted(ops: seq<Op>, w: Write) {
    match w
    case Save(ds, run) => run.None? && ds.runID != "" ==> FreshRun(ops, ds.runID)
    case TransformRun(_) => true
    case AmendHead(_) => LiveCount(ops) > 0
    case Delete(n) => 0 <= n <= LiveCount(ops)
    case Push(n, _, _) => n <= LiveCount(ops)
    case Unpublish(n, _, _) => n <= LiveCount(ops)
  }

  lemma SaveOpRunID(ds: Version)
    ensures CommitOpRunID(SaveOp(ds).relations) == ds.runID
  {
    if ds.runID != "" {
      assert (RUN_ID_REL_PREFIX + ds.runID)[|RUN_ID_REL_PREFIX|..] == ds.runID;
    }
  }

  lemma SaveKeepsWellFormed(ops: seq<Op>, ds: Version)
    requires WellFormed(ops)
    requires ds.runID == "" || FreshRun(ops, ds.runID)
             || (ops != [] && IsRun(ops[|ops| - 1]) && ops[|ops| - 1].ref == ds.runID)
    ensures WellFormed(ops + [SaveOp(ds)])
  {
    SaveOpRunID(ds);
    WellFormedSnoc(ops, SaveOp(ds));
  }

  lemma OtherWriteFits(ops: seq<Op>, w: Write)
    requires Permitted(ops, w) && !w.Save?
    ensures |WriteOps(w)| == 1 && OpFits(ops, WriteOps(w)[0])
  {
  }

  lemma PermittedKeepsWellFormed(ops: seq<Op>, w: Write)
    requires WellFormed(ops) && Permitted(ops, w)
    ensures WellFormed(ops + WriteOps(w))
  {
    if w.Save? {
      PermittedSave(ops, w.ds, w.run);
    } else {
      OtherWriteFits(ops, w);
      WellFormedSnoc(ops, WriteOps(w)[0]);
      assert WriteOps(w) == [WriteOps(w)[0]];
    }
  }

  lemma PermittedSave(ops: seq<Op>, ds: Version, run: Option<RunState>)
    requires WellFormed(ops) && Permitted(ops, Save(ds, run))
    ensures WellFormed(ops + WriteOps(Save(ds, run)))
  {
    match run {
      case None =>
        SaveKeepsWellFormed(ops, ds);
        assert WriteOps(Save(ds, run)) == [SaveOp(ds)];
      case Some(rs) =>
        if rs.id == ds.runID {
          RunAndSaveKeepWellFormed(ops, ds, rs);
          assert ops + WriteOps(Save(ds, run)) == ops + [RunOp(rs)] + [SaveOp(ds)];
        } else {
          assert ops + [] == ops;
        }
    }
  }

  lemma RunAndSaveKeepWellFormed(ops: seq<Op>, ds: Version, rs: RunState)
    requires WellFormed(ops) && rs.id == ds.runID
    ensures WellFormed(ops + [RunOp(rs)] + [SaveOp(ds)])
  {
    var withRun := ops + [RunOp(rs)];
    WellFormedSnoc(ops, RunOp(rs));
    assert withRun[|withRun| - 1] == RunOp(rs);
    SaveKeepsWellFormed(withRun, ds);
  }

  function AfterWrites(ops: seq<Op>, ws: seq<Write>): seq<Op> {
    if ws == [] then ops else AfterWrites(ops, ws[..|ws| - 1]) + WriteOps(ws[|ws| - 1])
  }

  /** Every write of the run is permitted where it happens. */
  predicate PermittedRun(ops: seq<Op>, ws: seq<Write>) {
    ws == [] || (PermittedRun(ops, ws[..|ws| - 1]) && Permitted(AfterWrites(ops, ws[..|ws| - 1]), ws[|ws| - 1]))
  }

  lemma {:induction false} RunsStayWellFormed(ops: seq<Op>, ws: seq<Write>)
    requires WellFormed(ops) && PermittedRun(ops, ws)
    ensures WellFormed(AfterWrites(ops, ws))
  {
    if ws != [] {
      RunsStayWellFormed(ops, ws[..|ws| - 1]);
      PermittedKeepsWellFormed(AfterWrites(ops, ws[..|ws| - 1]), ws[|ws| - 1]);
    }
  }

  /** The op InitLog starts a branch with. */
  predicate IsBranchStart(ops: seq<Op>) {
    |ops| == 1 && ops[0].model == BranchModel && ops[0].typ == Init
  }

  /** Every log reached from a new branch by any run of writes is replayable: no slice or index of
    * the path collection or of either item replay leaves its bounds. */
  lemma RunsAreReplayable(start: seq<Op>, ws: seq<Write>, ref: Ref)
    requires IsBranchStart(start) && PermittedRun(start, ws)
    ensures var ops := AfterWrites(start, ws);
            && PathStack(ops).Some?
            && BranchItems(ops, ref, 0, -1, true).Some?
            && BranchItems(ops, ref, 0, -1, false).Some?
  {
    assert start[..0] == [];
    WellFormedSnoc([], start[0]);
    assert [] + [start[0]] == start;
    RunsStayWellFormed(start, ws);
    var ops := AfterWrites(start, ws);
    WellFormedStack(ops);
    ItemsReplayable(ref, ops, true);
    ItemsReplayable(ref, ops, false);
  }

  /** Freshness of run IDs is needed: two saves that name one run fold into one item, and removing
    * both live versions then leaves the item slice. */
  lemma ReusedRunBreaksReplay(v: Version, rs: RunState, start: Op, ref: Ref)
    requires v.runID == rs.id == "x" && start.model == BranchModel
    ensures var ops := [start, RunOp(rs), SaveOp(v), SaveOp(v), DeleteOp(2)];
            && PathStack(ops).Some?
            && BranchItems(ops, ref, 0, -1, true).None?
  {
    SaveOpRunID(v);
    var l0, l1, l2, l3 := [start], [start, RunOp(rs)], [start, RunOp(rs), SaveOp(v)], [start, RunOp(rs), SaveOp(v), SaveOp(v)];
    var ops := l3 + [DeleteOp(2)];
    assert ops == [start, RunOp(rs), SaveOp(v), SaveOp(v), DeleteOp(2)];
    assert l0 == [] + [start] && l1 == l0 + [RunOp(rs)] && l2 == l1 + [SaveOp(v)] && l3 == l2 + [SaveOp(v)];
    PathStackSnoc([], start); PathStackSnoc(l0, RunOp(rs)); PathStackSnoc(l1, SaveOp(v));
    PathStackSnoc(l2, SaveOp(v)); PathStackSnoc(l3, DeleteOp(2));
    ItemReplaySnoc(ref, [], start, true); ItemReplaySnoc(ref, l0, RunOp(rs), true);
    ItemReplaySnoc(ref, l1, SaveOp(v), true); ItemReplaySnoc(ref, l2, SaveOp(v), true);
    ItemReplaySnoc(ref, l3, DeleteOp(2), true);
  }

  /** Runs are written only together with their save, under a non-empty ID. */
  predicate RunsOnlyWithSaves(ws: seq<Write>) {
    forall w | w in ws :: !w.TransformRun? && (w.Save? && w.run.Some? ==> w.run.value.id != "")
  }

  lemma {:induction false} RunsStayPaired(ops: seq<Op>, ws: seq<Write>)
    requires Paired(ops) && RunsOnlyWithSaves(ws)
    ensures Paired(AfterWrites(ops, ws))
  {
    if ws != [] {
      var before, w := AfterWrites(ops, ws[..|ws| - 1]), ws[|ws| - 1];
      assert w in ws;
      assert RunsOnlyWithSaves(ws[..|ws| - 1]) by {
        forall v | v in ws[..|ws| - 1] ensures v in ws {}
      }
      RunsStayPaired(ops, ws[..|ws| - 1]);
      PairedWrite(before, w);
    }
  }

  lemma PairedWrite(ops: seq<Op>, w: Write)
    requires Paired(ops) && !w.TransformRun? && (w.Save? && w.run.Some? ==> w.run.value.id != "")
    ensures Paired(ops + WriteOps(w))
  {
    if WriteOps(w) == [] {
      assert ops + WriteOps(w) == ops;
    } else if |WriteOps(w)| == 1 {
      var op := WriteOps(w)[0];
      assert WriteOps(w) == [op];
      PairedOne(ops, op);
    } else {
      SaveOpRunID(w.ds);
      PairedTwo(ops, RunOp(w.run.value), SaveOp(w.ds));
      assert ops + WriteOps(w) == ops + [RunOp(w.run.value)] + [SaveOp(w.ds)];
    }
  }

  lemma PairedOne(ops: seq<Op>, op: Op)
    requires Paired(ops) && !IsRun(op)
    ensures Paired(ops + [op])
  {
    assert (ops + [op])[..|ops|] == ops;
  }

  lemma PairedTwo(ops: seq<Op>, run: Op, save: Op)
    requires Paired(ops) && IsRun(run) && IsSave(save) && run.ref != "" && CommitOpRunID(save.relations) == run.ref
    ensures Paired(ops + [run] + [save])
  {
    var withRun := ops + [run];
    assert withRun[..|ops|] == ops;
    assert (withRun + [save])[..|withRun|] == withRun;
  }

  // ---- rolling a push back ----

  /** Dropping the newest op of a log takes back the one that `since` came after, exactly when all of
    * `since` are copies of it. */
  lemma DropsPushIff(ops: seq<Op>, push: Op, since: seq<Op>)
    ensures var now := ops + [push] + since;
            now[..|now| - 1] == ops + since <==> forall op | op in since :: op == push
  {
    var now := ops + [push] + since;
    var n := |ops|;
    if now[..|now| - 1] == ops + since {
      CopiesOfPush(push, since, |since|) by {
        forall i | 0 <= i < |since| ensures since[i] == ([push] + since)[i] {
          assert now[..|now| - 1][n + i] == ([push] + since)[i] && (ops + since)[n + i] == since[i];
        }
      }
    } else if forall op | op in since :: op == push {
      forall i | 0 <= i < |ops + since| ensures now[..|now| - 1][i] == (ops + since)[i] {
        if i > n { assert since[i - n - 1] in since; }
        if i >= n { assert since[i - n] in since; }
      }
    }
  }

  lemma {:induction false} CopiesOfPush(push: Op, since: seq<Op>, n: nat)
    requires n <= |since| && forall i :: 0 <= i < |since| ==> since[i] == ([push] + since)[i]
    ensures forall i :: 0 <= i < n ==> since[i] == push
  {
    if n > 0 {
      CopiesOfPush(push, since, n - 1);
      assert since[n - 1] == ([push] + since)[n - 1];
    }
  }

  /** Writes append the same ops to any log. */
  lemma {:induction false} WritesAppend(ops: seq<Op>, ws: seq<Write>)
    ensures AfterWrites(ops, ws) == ops + AfterWrites([], ws)
  {
    if ws != [] { WritesAppend(ops, ws[..|ws| - 1]); }
  }

  /** Dropping the newest op of a well-formed log leaves a well-formed log. */
  lemma RollbackKeepsWellFormed(ops: seq<Op>)
    requires WellFormed(ops) && ops != []
    ensures WellFormed(ops[..|ops| - 1])
  {
  }

  // ---- the event a removal publishes ----

  /** On paired logs amended only before anything was removed, the list a removal's event is made from
    * has as many items as versions are live, and its last item is the version saved first of all. */
  lemma LastItemIsOldest(ops: seq<Op>)
    requires WellFormed(ops) && Paired(ops) && RemovedBeforeAmend(ops) == 0
    ensures BranchItems(ops, EMPTY_REF, 0, -1, false).Some? && PathStack(ops).Some?
    ensures var (items, live) := (BranchItems(ops, EMPTY_REF, 0, -1, false).value, PathStack(ops).value);
            && |items| == |live|
            && (items != [] ==> SavedPaths(ops) != [] && items[|items| - 1].path == SavedPaths(ops)[0])
  {
    ModePaths(EMPTY_REF, ops);
    RemovedBounds(ops);
    var kept := Survivors(ItemReplay(EMPTY_REF, ops, false).value);
    assert |kept| == |Paths(kept)| == |PathStack(ops).value|;
    assert Reverse(kept)[0..] == Reverse(kept);
    if kept != [] { LastReversed(kept, SavedPaths(ops), |PathStack(ops).value|); }
  }

  /** With distinct paths the first version saved is the newest live one exactly when it is the only
    * one. */
  lemma OldestIsNewestIff(ops: seq<Op>)
    requires WellFormed(ops) && RemovedBeforeAmend(ops) == 0 && Distinct(SavedPaths(ops))
    requires PathStack(ops).Some? && PathStack(ops).value != []
    ensures SavedPaths(ops) != []
    ensures SavedPaths(ops)[0] == Top(PathStack(ops).value) <==> PathStack(ops).value == [SavedPaths(ops)[0]]
  {
    FirstSavedStaysAtBottom(ops);
    FirstOnTopIff(PathStack(ops).value, SavedPaths(ops));
  }

  /** A removal leaves what the two lemmas ask for as it is. */
  lemma RemovalKeepsSaved(ops: seq<Op>, n: int)
    requires WellFormed(ops) && Paired(ops) && Permitted(ops, Delete(n))
    ensures var ops' := ops + WriteOps(Delete(n));
            && WellFormed(ops') && Paired(ops') && RemovedBeforeAmend(ops') == RemovedBeforeAmend(ops)
            && SavedPaths(ops') == SavedPaths(ops)
  {
    PermittedKeepsWellFormed(ops, Delete(n));
    PairedWrite(ops, Delete(n));
    var ops' := ops + [DeleteOp(n)];
    assert WriteOps(Delete(n)) == [DeleteOp(n)];
    assert ops'[..|ops|] == ops && ops'[|ops|] == DeleteOp(n);
  }

  lemma LastReversed(kept: seq<VersionInfo>, saved: seq<string>, n: nat)
    requires 0 < n <= |saved| && Paths(kept) == saved[..n]
    ensures |kept| == n && Reverse(kept)[|kept| - 1].path == saved[0]
  {
    assert |Paths(kept)| == n;
    assert Paths(kept)[0] == kept[0].path;
  }

  lemma FirstOnTopIff(live: seq<string>, saved: seq<string>)
    requires live != [] && saved != [] && FirstAtBottom(live, saved)
    ensures saved[0] == Top(live) <==> live == [saved[0]]
  {
    if |live| == 1 { assert live == [live[0]]; }
  }

  /** Live versions above the bottom one were not saved first. */
  ghost predicate FirstAtBottom(live: seq<string>, saved: seq<string>) {
    live != [] ==> saved != [] && forall k :: 0 < k < |live| ==> live[k] != saved[0]
  }

  lemma {:induction false} FirstSavedStaysAtBottom(ops: seq<Op>)
    requires WellFormed(ops) && RemovedBeforeAmend(ops) == 0 && Distinct(SavedPaths(ops))
    ensures PathStack(ops).Some? && FirstAtBottom(PathStack(ops).value, SavedPaths(ops))
  {
    WellFormedStack(ops);
    if ops != [] && IsAmend(ops[|ops| - 1]) {
      NothingRemovedYet(ops);
    } else if ops != [] {
      var rest, op := ops[..|ops| - 1], ops[|ops| - 1];
      var saved, before := SavedPaths(ops), SavedPaths(rest);
      assert before == saved[..|before|];
      FirstSavedStaysAtBottom(rest);
      if IsSave(op) {
        PushKeepsFirst(PathStack(rest).value, before, op.ref);
      } else {
        assert saved == before;
      }
    }
  }

  lemma PushKeepsFirst(live: seq<string>, saved: seq<string>, p: string)
    requires FirstAtBottom(live, saved) && Distinct(saved + [p])
    ensures FirstAtBottom(live + [p], saved + [p])
  {
    if live != [] {
      assert (saved + [p])[0] == saved[0] && (saved + [p])[|saved|] == p;
    }
  }
}
