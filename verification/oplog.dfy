/** Operations of an append-only branch log, and the plain stack replay of its commits
  * (logbook/oplog/log.go, logbook/logbook.go). */
module OpLog {
  import opened Prelude

  datatype OpType = Init | Amend | Remove

  datatype Model = AuthorModel | DatasetModel | BranchModel | CommitModel | PushModel | RunModel | ACLModel

  datatype Op = Op(
    typ: OpType, model: Model, ref: string, prev: string, relations: seq<string>,
    name: string, authorID: string, timestamp: int, size: int, note: string)

  const RUN_ID_REL_PREFIX := "runID:"

  /** The run a commit belongs to: the first relation with the run prefix, without that prefix. */
  function CommitOpRunID(relations: seq<string>): string {
    if relations == [] then ""
    else if RUN_ID_REL_PREFIX <= relations[0] then relations[0][|RUN_ID_REL_PREFIX|..]
    else CommitOpRunID(relations[1..])
  }

  /** The first relation that has the prefix counts. */
  lemma {:induction false} FirstRunRelation(before: seq<string>, runID: string, after: seq<string>)
    requires forall i :: 0 <= i < |before| ==> !("runID:" <= before[i])
    ensures CommitOpRunID(before + ["runID:" + runID] + after) == runID
    ensures CommitOpRunID(before) == ""
  {
    var all := before + ["runID:" + runID] + after;
    if before == [] {
      assert all[0] == "runID:" + runID;
      assert ("runID:" + runID)[6..] == runID;
    } else {
      assert all[1..] == before[1..] + ["runID:" + runID] + after;
      FirstRunRelation(before[1..], runID, after);
    }
  }

  predicate IsRun(op: Op) { op.model == RunModel }
  predicate IsSave(op: Op) { op.model == CommitModel && op.typ == Init }
  predicate IsAmend(op: Op) { op.model == CommitModel && op.typ == Amend }
  predicate IsCommitRemove(op: Op) { op.model == CommitModel && op.typ == Remove }

  /** What one op does to the stack of live commit paths; None where Go panics on a slice bound. */
  function PathStep(ps: seq<string>, op: Op): Option<seq<string>> {
    if op.model != CommitModel then Some(ps)
    else
      match op.typ
      case Init => Some(ps + [op.ref])
      case Remove => if 0 <= op.size <= |ps| then Some(ps[..|ps| - op.size]) else None
      case Amend => if |ps| > 0 then Some(ps[..|ps| - 1] + [op.ref]) else None
  }

  /** The live commit paths of a log, oldest first: the forward stack replay. */
  function PathStack(ops: seq<Op>): Option<seq<string>> {
    if ops == [] then Some([])
    else
      match PathStack(ops[..|ops| - 1])
      case None => None
      case Some(ps) => PathStep(ps, ops[|ops| - 1])
  }

  function LiveCount(ops: seq<Op>): nat {
    match PathStack(ops)
    case None => 0
    case Some(ps) => |ps|
  }

  lemma PathStackSnoc(ops: seq<Op>, op: Op)
    ensures PathStack(ops + [op]) ==
            match PathStack(ops) { case None => None case Some(ps) => PathStep(ps, op) }
  {
    assert (ops + [op])[..|ops|] == ops;
  }

  // ---- well-formed branch logs ----

  /** No run op of the log carries this run ID. */
  predicate FreshRun(ops: seq<Op>, runID: string) {
    forall op | op in ops && IsRun(op) :: op.ref != runID
  }

  /** op may follow ops: its counts stay within the live versions, and a commit that names a run
    * either directly follows that run's op or names a run the log has not seen. */
  predicate OpFits(ops: seq<Op>, op: Op) {
    match op.model
    case CommitModel =>
      (match op.typ
       case Init =>
         var runID := CommitOpRunID(op.relations);
         runID == "" || FreshRun(ops, runID)
         || (ops != [] && IsRun(ops[|ops| - 1]) && ops[|ops| - 1].ref == runID)
       case Remove => 0 <= op.size <= LiveCount(ops)
       case Amend => LiveCount(ops) > 0)
    case PushModel => op.typ != Amend && op.size <= LiveCount(ops)
    case RunModel => op.typ == Init
    case BranchModel => true
    case _ => false
  }

  predicate WellFormed(ops: seq<Op>) {
    ops == [] || (WellFormed(ops[..|ops| - 1]) && OpFits(ops[..|ops| - 1], ops[|ops| - 1]))
  }

  lemma WellFormedSnoc(ops: seq<Op>, op: Op)
    ensures WellFormed(ops + [op]) <==> WellFormed(ops) && OpFits(ops, op)
  {
    assert (ops + [op])[..|ops|] == ops;
  }

  /** Counts alone decide whether the stack replay stays inside its slice. */
  predicate CountsFit(ops: seq<Op>) {
    ops == []
    || (CountsFit(ops[..|ops| - 1])
        && var op := ops[|ops| - 1];
           && (IsCommitRemove(op) ==> 0 <= op.size <= LiveCount(ops[..|ops| - 1]))
           && (IsAmend(op) ==> LiveCount(ops[..|ops| - 1]) > 0))
  }

  /** The paths of a log can be collected exactly when its removals and amends stay within the
    * versions live at that point. */
  lemma {:induction false} PathStackTotal(ops: seq<Op>)
    ensures PathStack(ops).Some? <==> CountsFit(ops)
  {
    if ops != [] {
      PathStackTotal(ops[..|ops| - 1]);
    }
  }

  lemma {:induction false} WellFormedStack(ops: seq<Op>)
    requires WellFormed(ops)
    ensures PathStack(ops).Some?
  {
    if ops != [] {
      WellFormedStack(ops[..|ops| - 1]);
    }
  }

  /** Every run op but possibly the last op of the log is directly followed by its commit. */
  predicate PairedPrefix(ops: seq<Op>) {
    ops == []
    || (PairedPrefix(ops[..|ops| - 1])
        && (|ops| > 1 && IsRun(ops[|ops| - 2])
            ==> var run, op := ops[|ops| - 2], ops[|ops| - 1];
                IsSave(op) && run.ref != "" && CommitOpRunID(op.relations) == run.ref))
  }

  /** Every run op is directly followed by the commit of that run. */
  predicate Paired(ops: seq<Op>) {
    PairedPrefix(ops) && !(ops != [] && IsRun(ops[|ops| - 1]))
  }

  // ---- the backward scan for the newest path ----

  /** latestSavePath over a log, with `removes` removals pending. */
  function LatestScan(ops: seq<Op>, removes: int): string {
    if ops == [] then ""
    else
      var rest, op := ops[..|ops| - 1], ops[|ops| - 1];
      if op.model != CommitModel then LatestScan(rest, removes)
      else if op.typ == Remove then LatestScan(rest, removes + op.size)
      else
        var left := if removes > 0 then removes - 1 else removes;
        if left == 0 then op.ref else LatestScan(rest, left)
  }

  function LatestSavePath(ops: seq<Op>): string { LatestScan(ops, 0) }
}
