/** branchToVersionInfos: the replay of a branch log into version summaries, in both delete modes
  * (logbook/logbook.go). */
module Replay {
  import opened Prelude
  import opened DsRef
  import opened OpLog

  /** The growing list of items and the removals postponed to the end of the replay. */
  datatype ItemState = ItemState(refs: seq<VersionInfo>, deleteAtEnd: int)

  function VersionInfoFromOp(ref: Ref, op: Op): VersionInfo {
    VersionInfo(ref.username, ref.profileID, ref.name, op.ref, false, op.size, op.timestamp, op.note, "", "", 0)
  }

  function RunItemFromOp(ref: Ref, op: Op): VersionInfo {
    VersionInfo(ref.username, ref.profileID, ref.name, "", false, 0, op.timestamp, "", op.ref, op.note, op.size)
  }

  function AddCommitDetails(li: VersionInfo, op: Op): VersionInfo {
    li.(commitTime := op.timestamp, commitTitle := op.note, bodySize := op.size, path := op.ref)
  }

  /** Whether a commit is folded into the newest item because they describe one run. */
  predicate Merges(refs: seq<VersionInfo>, op: Op) {
    CommitOpRunID(op.relations) != "" && |refs| > 0 && CommitOpRunID(op.relations) == refs[|refs| - 1].runID
  }

  /** The n newest items with their published flag set to b. */
  function MarkPublished(refs: seq<VersionInfo>, n: int, b: bool): (r: seq<VersionInfo>)
    requires n <= |refs|
    ensures |r| == |refs|
    ensures forall i :: 0 <= i < |refs| ==>
              r[i] == if i >= |refs| - n then refs[i].(published := b) else refs[i]
  {
    seq(|refs|, i requires 0 <= i < |refs| =>
      if i >= |refs| - n then refs[i].(published := b) else refs[i])
  }

  /** What one op does to the items; None where Go panics on an index or slice bound. */
  function ItemStep(ref: Ref, st: ItemState, op: Op, collapse: bool): Option<ItemState> {
    var refs := st.refs;
    match op.model
    case CommitModel =>
      (match op.typ
       case Init =>
         if Merges(refs, op) then
           Some(st.(refs := refs[|refs| - 1 := AddCommitDetails(refs[|refs| - 1], op)]))
         else Some(st.(refs := refs + [VersionInfoFromOp(ref, op)]))
       case Amend =>
         if |refs| > 0 then Some(ItemState(refs[|refs| - 1 := VersionInfoFromOp(ref, op)], 0)) else None
       case Remove =>
         if !collapse then Some(st.(deleteAtEnd := st.deleteAtEnd + op.size))
         else if 0 <= op.size <= |refs| then Some(st.(refs := refs[..|refs| - op.size])) else None)
    case RunModel => Some(st.(refs := refs + [RunItemFromOp(ref, op)]))
    case PushModel =>
      if op.typ == Amend then Some(st)
      else if op.size <= |refs| then Some(st.(refs := MarkPublished(refs, op.size, op.typ == Init))) else None
    case _ => Some(st)
  }

  function ItemReplay(ref: Ref, ops: seq<Op>, collapse: bool): Option<ItemState> {
    if ops == [] then Some(ItemState([], 0))
    else
      match ItemReplay(ref, ops[..|ops| - 1], collapse)
      case None => None
      case Some(st) => ItemStep(ref, st, ops[|ops| - 1], collapse)
  }

  /** The items that survive the removals postponed to the end. */
  function Survivors(st: ItemState): (refs: seq<VersionInfo>)
  {
    if st.deleteAtEnd <= 0 then st.refs
    else if st.deleteAtEnd < |st.refs| then st.refs[..|st.refs| - st.deleteAtEnd]
    else []
  }

  /** branchToVersionInfos: newest first, then paged; None where Go panics. */
  function BranchItems(ops: seq<Op>, ref: Ref, offset: int, limit: int, collapse: bool): Option<seq<VersionInfo>> {
    match ItemReplay(ref, ops, collapse)
    case None => None
    case Some(st) => Page(Reverse(Survivors(st)), offset, limit)
  }

  /** The loop of the original, with its slice updated in place; None where it panics. */
  method BranchToVersionInfos(ops: seq<Op>, ref: Ref, offset: int, limit: int, collapseAllDeletes: bool)
    returns (items: Option<seq<VersionInfo>>)
    ensures items == BranchItems(ops, ref, offset, limit, collapseAllDeletes)
  {
    var refs: seq<VersionInfo> := [];
    var deleteAtEnd := 0;
    for k := 0 to |ops|
      invariant ItemReplay(ref, ops[..k], collapseAllDeletes) == Some(ItemState(refs, deleteAtEnd))
    {
      var op := ops[k];
      ItemReplayNext(ref, ops, k, collapseAllDeletes);
      ghost var before := ItemState(refs, deleteAtEnd);
      var ok := true;
      match op.model {
        case CommitModel =>
          match op.typ {
            case Init =>
              var commitRunID := CommitOpRunID(op.relations);
              if commitRunID != "" && |refs| > 0 && commitRunID == refs[|refs| - 1].runID {
                refs := refs[|refs| - 1 := AddCommitDetails(refs[|refs| - 1], op)];
              } else {
                refs := refs + [VersionInfoFromOp(ref, op)];
              }
            case Amend =>
              deleteAtEnd := 0;
              if |refs| > 0 {
                refs := refs[|refs| - 1 := VersionInfoFromOp(ref, op)];
              } else {
                ok := false;
              }
            case Remove =>
              if !collapseAllDeletes {
                deleteAtEnd := deleteAtEnd + op.size;
              } else if 0 <= op.size <= |refs| {
                refs := refs[..|refs| - op.size];
              } else {
                ok := false;
              }
          }
        case RunModel =>
          refs := refs + [RunItemFromOp(ref, op)];
        case PushModel =>
          if op.typ != Amend {
            refs, ok := SetPublished(refs, op.size, op.typ == Init);
          }
        case _ =>
      }
      assert ItemStep(ref, before, op, collapseAllDeletes) == if ok then Some(ItemState(refs, deleteAtEnd)) else None;
      if !ok {
        PanicIsFinal(ref, ops, k + 1, collapseAllDeletes);
        return None;
      }
    }
    assert ops[..|ops|] == ops;
    items := CutAndPage(refs, deleteAtEnd, offset, limit);
  }

  /** The end of it: the postponed removals, the reversal and the page. */
  method CutAndPage(replayed: seq<VersionInfo>, deleteAtEnd: int, offset: int, limit: int)
    returns (items: Option<seq<VersionInfo>>)
    ensures items == Page(Reverse(Survivors(ItemState(replayed, deleteAtEnd))), offset, limit)
  {
    var refs := replayed;
    if deleteAtEnd > 0 {
      if deleteAtEnd < |refs| {
        refs := refs[..|refs| - deleteAtEnd];
      } else {
        refs := [];
      }
    }
    refs := ReverseInPlace(refs);
    items := PageOf(refs, offset, limit);
  }

  method PageOf<T>(all: seq<T>, offset: int, limit: int) returns (page: Option<seq<T>>)
    ensures page == Page(all, offset, limit)
  {
    var refs := all;
    var from := if offset > |refs| then |refs| else offset;
    if from < 0 { return None; }
    refs := refs[from..];
    if limit < |refs| && limit != -1 {
      if limit < 0 { return None; }
      refs := refs[..limit];
    }
    page := Some(refs);
  }

  /** Marks the n newest items one index at a time; not ok where an index leaves the slice. */
  method SetPublished(refs: seq<VersionInfo>, n: int, b: bool) returns (r: seq<VersionInfo>, ok: bool)
    ensures ok <==> n <= |refs|
    ensures ok ==> r == MarkPublished(refs, n, b)
  {
    r := refs;
    var i := 1;
    while i <= n
      invariant 1 <= i && (i <= n + 1 || i == 1)
      invariant i - 1 <= |refs| == |r|
      invariant forall k :: 0 <= k < |r| ==>
                  r[k] == if k >= |r| - (i - 1) then refs[k].(published := b) else refs[k]
    {
      if |r| - i < 0 { return r, false; }
      r := r[|r| - i := r[|r| - i].(published := b)];
      i := i + 1;
    }
    ok := true;
  }

  /** The slice trick of the original: swap the halves from the middle outwards. */
  method ReverseInPlace<T>(s: seq<T>) returns (r: seq<T>)
    ensures r == Reverse(s)
  {
    r := s;
    var i := |s| / 2 - 1;
    while i >= 0
      invariant -1 <= i <= |s| / 2 - 1
      invariant |r| == |s|
      invariant forall k :: i < k < |s| - 1 - i ==> r[k] == s[|s| - 1 - k]
      invariant forall k :: 0 <= k <= i || |s| - 1 - i <= k < |s| ==> r[k] == s[k]
      decreases i
    {
      var opp := |r| - 1 - i;
      var newer, older := r[opp], r[i];
      r := r[i := newer];
      r := r[opp := older];
      i := i - 1;
    }
  }

  lemma {:induction false} PanicIsFinal(ref: Ref, ops: seq<Op>, k: nat, collapse: bool)
    requires k <= |ops| && ItemReplay(ref, ops[..k], collapse) == None
    ensures ItemReplay(ref, ops, collapse) == None
    decreases |ops| - k
  {
    if k < |ops| {
      assert ops[..k + 1][..k] == ops[..k];
      PanicIsFinal(ref, ops, k + 1, collapse);
    } else {
      assert ops[..k] == ops;
    }
  }

  lemma ItemReplayNext(ref: Ref, ops: seq<Op>, k: nat, collapse: bool)
    requires k < |ops|
    ensures ItemReplay(ref, ops[..k + 1], collapse) ==
            match ItemReplay(ref, ops[..k], collapse) case None => None case Some(st) => ItemStep(ref, st, ops[k], collapse)
  {
    assert ops[..k + 1] == ops[..k] + [ops[k]];
    ItemReplaySnoc(ref, ops[..k], ops[k], collapse);
  }

  lemma ItemReplaySnoc(ref: Ref, ops: seq<Op>, op: Op, collapse: bool)
    ensures ItemReplay(ref, ops + [op], collapse) ==
            match ItemReplay(ref, ops, collapse) { case None => None case Some(st) => ItemStep(ref, st, op, collapse) }
  {
    assert (ops + [op])[..|ops|] == ops;
  }

  // ---- every well-formed log is replayable ----

  /** Items carry only run IDs of runs the log has seen. */
  ghost predicate RunsSeen(refs: seq<VersionInfo>, ops: seq<Op>) {
    forall i :: 0 <= i < |refs| && refs[i].runID != "" ==> !FreshRun(ops, refs[i].runID)
  }

  lemma RunsSeenGrows(refs: seq<VersionInfo>, ops: seq<Op>)
    requires ops != [] && RunsSeen(refs, ops[..|ops| - 1])
    ensures RunsSeen(refs, ops)
  {
    forall i | 0 <= i < |refs| && refs[i].runID != "" ensures !FreshRun(ops, refs[i].runID) {
      var op :| op in ops[..|ops| - 1] && IsRun(op) && op.ref == refs[i].runID;
      assert op in ops;
    }
  }

  /** Right after a run op the newest item is that run. */
  ghost predicate NewestIsRun(refs: seq<VersionInfo>, ops: seq<Op>) {
    ops != [] && IsRun(ops[|ops| - 1]) ==> |refs| > 0 && refs[|refs| - 1].runID == ops[|ops| - 1].ref
  }

  /** On a well-formed log no slice or index of branchToVersionInfos leaves its bounds, in either
    * mode: the item list is never shorter than the commit stack, and longer right after a run. */
  lemma {:induction false} ItemsReplayable(ref: Ref, ops: seq<Op>, collapse: bool)
    requires WellFormed(ops)
    ensures PathStack(ops).Some? && ItemReplay(ref, ops, collapse).Some?
    ensures var refs := ItemReplay(ref, ops, collapse).value.refs;
            && |refs| >= LiveCount(ops)
            && (ops != [] && IsRun(ops[|ops| - 1]) ==> |refs| > LiveCount(ops))
            && RunsSeen(refs, ops) && NewestIsRun(refs, ops)
    ensures ItemReplay(ref, ops, collapse).value.deleteAtEnd >= 0
  {
    WellFormedStack(ops);
    if ops != [] {
      var rest, op := ops[..|ops| - 1], ops[|ops| - 1];
      WellFormedStack(rest);
      ItemsReplayable(ref, rest, collapse);
      var st := ItemReplay(ref, rest, collapse).value;
      RunsSeenGrows(st.refs, ops);
      if IsSave(op) {
        MergeFollowsRun(ref, rest, op, st.refs);
      }
      if IsRun(op) {
        assert op in ops;
      }
    }
  }

  /** Only a commit that directly follows its run's op is folded into an item. */
  lemma MergeFollowsRun(ref: Ref, ops: seq<Op>, op: Op, refs: seq<VersionInfo>)
    requires IsSave(op) && OpFits(ops, op) && RunsSeen(refs, ops) && NewestIsRun(refs, ops)
    ensures Merges(refs, op) <==>
            CommitOpRunID(op.relations) != "" && ops != [] && IsRun(ops[|ops| - 1])
            && ops[|ops| - 1].ref == CommitOpRunID(op.relations)
  {
  }
}
