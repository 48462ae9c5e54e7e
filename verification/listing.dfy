/** What the list of a branch's versions shows: what each write does to it, and which versions it marks
  * as published, told from the ops alone (logbook/logbook.go). */
module Listing {
  import opened Prelude
  import opened DsRef
  import opened OpLog
  import opened Replay
  import opened ReplayAgreement
  import opened Writes

  // ---- what each write does to the list ----

  /** The newest-first list of a branch; on a well-formed log there is one. */
  function Listed(ref: Ref, ops: seq<Op>): seq<VersionInfo> {
    match BranchItems(ops, ref, 0, -1, true) case None => [] case Some(items) => items
  }

  /** The list is the items in the opposite order. */
  lemma ListedItems(ref: Ref, ops: seq<Op>)
    requires WellFormed(ops)
    ensures ItemReplay(ref, ops, true).Some? && ItemReplay(ref, ops, true).value.deleteAtEnd == 0
    ensures Listed(ref, ops) == Reverse(ItemReplay(ref, ops, true).value.refs)
  {
    LazyKeepsRemoved(ref, ops);
    var all := Reverse(ItemReplay(ref, ops, true).value.refs);
    assert all[0..] == all;
  }

  /** What one op does to the list. */
  lemma ListedNext(ref: Ref, ops: seq<Op>, op: Op)
    requires WellFormed(ops) && OpFits(ops, op)
    ensures WellFormed(ops + [op])
    ensures var st := ItemReplay(ref, ops, true);
            && st == Some(ItemState(Reverse(Listed(ref, ops)), 0)) && ItemStep(ref, st.value, op, true).Some?
            && Listed(ref, ops + [op]) == Reverse(ItemStep(ref, st.value, op, true).value.refs)
  {
    WellFormedSnoc(ops, op);
    ListedItems(ref, ops);
    ListedItems(ref, ops + [op]);
    ItemReplaySnoc(ref, ops, op, true);
    var st := ItemReplay(ref, ops, true).value;
    ReverseTwice(st.refs);
    assert st == ItemState(st.refs, 0);
  }

  function BodyLength(ds: Version): int { match ds.bodyLength case None => 0 case Some(n) => n }

  function StartTime(rs: RunState): int { match rs.startTime case None => 0 case Some(t) => t }

  lemma ReversePushed<T>(s: seq<T>, x: T)
    ensures Reverse(s + [x]) == [x] + Reverse(s)
  {
  }

  /** A save without a run puts its version in front. */
  lemma SaveShows(ref: Ref, ops: seq<Op>, ds: Version)
    requires WellFormed(ops) && Permitted(ops, Save(ds, None))
    requires ops != [] && IsRun(ops[|ops| - 1]) ==> ops[|ops| - 1].ref != ds.runID
    ensures Listed(ref, ops + WriteOps(Save(ds, None))) ==
            [VersionInfo(ref.username, ref.profileID, ref.name, ds.path, false, BodyLength(ds), ds.timestamp, ds.title, "", "", 0)]
            + Listed(ref, ops)
  {
    SavePutsInFront(ref, ops, ds, VersionInfo(ref.username, ref.profileID, ref.name, ds.path, false, BodyLength(ds), ds.timestamp, ds.title, "", "", 0));
    SaveWrites(ds);
  }

  lemma SaveWrites(ds: Version)
    ensures WriteOps(Save(ds, None)) == [SaveOp(ds)]
  {
  }

  lemma SavePutsInFront(ref: Ref, ops: seq<Op>, ds: Version, first: VersionInfo)
    requires WellFormed(ops) && Permitted(ops, Save(ds, None))
    requires ops != [] && IsRun(ops[|ops| - 1]) ==> ops[|ops| - 1].ref != ds.runID
    requires first == VersionInfo(ref.username, ref.profileID, ref.name, ds.path, false, BodyLength(ds), ds.timestamp, ds.title, "", "", 0)
    ensures Listed(ref, ops + [SaveOp(ds)]) == [first] + Listed(ref, ops)
  {
    NotFolded(ref, ops, ds);
    ListedNext(ref, ops, SaveOp(ds));
    PutsInFront(ref, Listed(ref, ops), ds, first);
  }

  lemma NotFolded(ref: Ref, ops: seq<Op>, ds: Version)
    requires WellFormed(ops) && Permitted(ops, Save(ds, None))
    requires ops != [] && IsRun(ops[|ops| - 1]) ==> ops[|ops| - 1].ref != ds.runID
    ensures OpFits(ops, SaveOp(ds)) && !Merges(Reverse(Listed(ref, ops)), SaveOp(ds))
  {
    var items := ItemReplay(ref, ops, true);
    SaveOpRunID(ds);
    ItemsReplayable(ref, ops, true);
    MergeFollowsRun(ref, ops, SaveOp(ds), items.value.refs);
    ListedItems(ref, ops);
    ReverseTwice(items.value.refs);
  }

  lemma PutsInFront(ref: Ref, items: seq<VersionInfo>, ds: Version, first: VersionInfo)
    requires !Merges(Reverse(items), SaveOp(ds))
    requires first == VersionInfo(ref.username, ref.profileID, ref.name, ds.path, false, BodyLength(ds), ds.timestamp, ds.title, "", "", 0)
    ensures var st := ItemStep(ref, ItemState(Reverse(items), 0), SaveOp(ds), true);
            st.Some? && Reverse(st.value.refs) == [first] + items
  {
    ReversePushed(Reverse(items), VersionInfoFromOp(ref, SaveOp(ds)));
    ReverseTwice(items);
  }

  /** A run puts an item without a path in front. */
  lemma RunShows(ref: Ref, ops: seq<Op>, rs: RunState)
    requires WellFormed(ops)
    ensures Listed(ref, ops + WriteOps(TransformRun(rs))) ==
            [VersionInfo(ref.username, ref.profileID, ref.name, "", false, 0, StartTime(rs), "", rs.id, rs.status, rs.duration)]
            + Listed(ref, ops)
  {
    var op, refs := RunOp(rs), Reverse(Listed(ref, ops));
    ListedNext(ref, ops, op);
    ReversePushed(refs, RunItemFromOp(ref, op));
    ReverseTwice(Listed(ref, ops));
    assert WriteOps(TransformRun(rs)) == [op];
  }

  /** A save with its run puts one item in front that tells of both. */
  lemma SaveWithRunShows(ref: Ref, ops: seq<Op>, ds: Version, rs: RunState)
    requires WellFormed(ops) && ds.runID == rs.id != ""
    ensures Listed(ref, ops + WriteOps(Save(ds, Some(rs)))) ==
            [VersionInfo(ref.username, ref.profileID, ref.name, ds.path, false, BodyLength(ds), ds.timestamp, ds.title,
                         rs.id, rs.status, rs.duration)]
            + Listed(ref, ops)
  {
    var first := RunShown(ref, ops, rs);
    FoldShows(ref, ops + [RunOp(rs)], ds, [first] + Listed(ref, ops), Listed(ref, ops));
    SaveWithRunWrites(ops, ds, rs);
  }

  lemma SaveWithRunWrites(ops: seq<Op>, ds: Version, rs: RunState)
    requires ds.runID == rs.id
    ensures ops + WriteOps(Save(ds, Some(rs))) == ops + [RunOp(rs)] + [SaveOp(ds)]
  {
    assert WriteOps(Save(ds, Some(rs))) == [RunOp(rs)] + [SaveOp(ds)];
  }

  lemma RunShown(ref: Ref, ops: seq<Op>, rs: RunState) returns (first: VersionInfo)
    requires WellFormed(ops) && rs.id != ""
    ensures first == VersionInfo(ref.username, ref.profileID, ref.name, "", false, 0, StartTime(rs), "", rs.id, rs.status, rs.duration)
    ensures var withRun := ops + [RunOp(rs)];
            WellFormed(withRun) && IsRun(withRun[|withRun| - 1]) && withRun[|withRun| - 1].ref == rs.id &&
            Listed(ref, withRun) == [first] + Listed(ref, ops)
  {
    RunShows(ref, ops, rs);
    assert WriteOps(TransformRun(rs)) == [RunOp(rs)];
    first := VersionInfo(ref.username, ref.profileID, ref.name, "", false, 0, StartTime(rs), "", rs.id, rs.status, rs.duration);
    WellFormedSnoc(ops, RunOp(rs));
  }

  /** A commit right after its run is folded into the run's item. */
  lemma FoldShows(ref: Ref, ops: seq<Op>, ds: Version, items: seq<VersionInfo>, before: seq<VersionInfo>)
    requires WellFormed(ops) && ops != [] && IsRun(ops[|ops| - 1]) && ops[|ops| - 1].ref == ds.runID != ""
    requires items == Listed(ref, ops) && items != [] && items[0].runID == ds.runID && items[1..] == before
    ensures Listed(ref, ops + [SaveOp(ds)]) ==
            [items[0].(commitTime := ds.timestamp, commitTitle := ds.title, bodySize := BodyLength(ds), path := ds.path)] + before
  {
    SaveOpRunID(ds);
    ListedNext(ref, ops, SaveOp(ds));
    FoldsIntoFirst(ref, before, items, SaveOp(ds));
  }

  lemma FoldsIntoFirst(ref: Ref, before: seq<VersionInfo>, items: seq<VersionInfo>, op: Op)
    requires IsSave(op) && CommitOpRunID(op.relations) != "" && items != [] && items[1..] == before
    requires items[0].runID == CommitOpRunID(op.relations)
    ensures var st := ItemState(Reverse(items), 0);
            ItemStep(ref, st, op, true).Some? &&
            Reverse(ItemStep(ref, st, op, true).value.refs) == [AddCommitDetails(items[0], op)] + before
  {
  }

  /** An amend replaces the newest version. */
  lemma AmendShows(ref: Ref, ops: seq<Op>, ds: Version)
    requires WellFormed(ops) && Permitted(ops, AmendHead(ds))
    ensures Listed(ref, ops) != []
    ensures Listed(ref, ops + WriteOps(AmendHead(ds))) ==
            [VersionInfo(ref.username, ref.profileID, ref.name, ds.path, false, 0, ds.timestamp, ds.title, "", "", 0)]
            + Listed(ref, ops)[1..]
  {
    assert WriteOps(AmendHead(ds)) == [AmendOp(ds)];
    ListedNext(ref, ops, AmendOp(ds));
    ReplacesFirst(ref, Listed(ref, ops), ds);
  }

  lemma ReplacesFirst(ref: Ref, items: seq<VersionInfo>, ds: Version)
    requires ItemStep(ref, ItemState(Reverse(items), 0), AmendOp(ds), true).Some?
    ensures items != []
    ensures Reverse(ItemStep(ref, ItemState(Reverse(items), 0), AmendOp(ds), true).value.refs) ==
            [VersionInfo(ref.username, ref.profileID, ref.name, ds.path, false, 0, ds.timestamp, ds.title, "", "", 0)]
            + items[1..]
  {
  }

  /** A removal takes as many items off the front as it counts. */
  lemma DeleteShows(ref: Ref, ops: seq<Op>, n: int)
    requires WellFormed(ops) && Permitted(ops, Delete(n))
    ensures 0 <= n <= |Listed(ref, ops)|
    ensures Listed(ref, ops + WriteOps(Delete(n))) == Listed(ref, ops)[n..]
  {
    ItemsReplayable(ref, ops, true);
    ListedNext(ref, ops, DeleteOp(n));
    RemovesFirst(ref, Listed(ref, ops), n);
    assert WriteOps(Delete(n)) == [DeleteOp(n)];
  }

  lemma RemovesFirst(ref: Ref, items: seq<VersionInfo>, n: int)
    requires ItemStep(ref, ItemState(Reverse(items), 0), DeleteOp(n), true).Some?
    ensures 0 <= n <= |items|
    ensures Reverse(ItemStep(ref, ItemState(Reverse(items), 0), DeleteOp(n), true).value.refs) == items[n..]
  {
  }

  /** A push marks the n newest items as published, an unpublish as not published; nothing else
    * changes. */
  lemma PushShows(ref: Ref, ops: seq<Op>, n: int, remote: string, timestamp: int)
    requires WellFormed(ops) && Permitted(ops, Push(n, remote, timestamp))
    ensures var (before, after) := (Listed(ref, ops), Listed(ref, ops + WriteOps(Push(n, remote, timestamp))));
            |after| == |before| && n <= |before| &&
            forall i :: 0 <= i < |after| ==> after[i] == if i < n then before[i].(published := true) else before[i]
    ensures var (before, after) := (Listed(ref, ops), Listed(ref, ops + WriteOps(Unpublish(n, remote, timestamp))));
            |after| == |before| &&
            forall i :: 0 <= i < |after| ==> after[i] == if i < n then before[i].(published := false) else before[i]
  {
    var push, unpublish := RemoteOp(Init, n, remote, timestamp), RemoteOp(Remove, n, remote, timestamp);
    assert WriteOps(Push(n, remote, timestamp)) == [push] && WriteOps(Unpublish(n, remote, timestamp)) == [unpublish];
    ListedNext(ref, ops, push);
    MarksFirst(ref, Listed(ref, ops), push, n, true);
    ListedNext(ref, ops, unpublish);
    MarksFirst(ref, Listed(ref, ops), unpublish, n, false);
  }

  lemma MarksFirst(ref: Ref, items: seq<VersionInfo>, op: Op, n: int, b: bool)
    requires op.model == PushModel && op.size == n && op.typ == (if b then Init else Remove)
    requires ItemStep(ref, ItemState(Reverse(items), 0), op, true).Some?
    ensures n <= |items|
    ensures var after := Reverse(ItemStep(ref, ItemState(Reverse(items), 0), op, true).value.refs);
            |after| == |items| &&
            forall i :: 0 <= i < |after| ==> after[i] == if i < n then items[i].(published := b) else items[i]
  {
    MarkStep(ref, Reverse(items), op, b);
    MarkedFirst(items, n, b, Reverse(MarkPublished(Reverse(items), n, b)));
  }

  lemma MarkStep(ref: Ref, refs: seq<VersionInfo>, op: Op, b: bool)
    requires op.model == PushModel && op.typ == (if b then Init else Remove)
    requires ItemStep(ref, ItemState(refs, 0), op, true).Some?
    ensures op.size <= |refs| && ItemStep(ref, ItemState(refs, 0), op, true).value.refs == MarkPublished(refs, op.size, b)
  {
  }

  lemma MarkedFirst(items: seq<VersionInfo>, n: int, b: bool, after: seq<VersionInfo>)
    requires n <= |items| && after == Reverse(MarkPublished(Reverse(items), n, b))
    ensures |after| == |items| &&
            forall i :: 0 <= i < |after| ==> after[i] == if i < n then items[i].(published := b) else items[i]
  {
    forall i | 0 <= i < |after| ensures after[i] == if i < n then items[i].(published := b) else items[i] {
      assert after[i] == MarkPublished(Reverse(items), n, b)[|items| - 1 - i];
      assert Reverse(items)[|items| - 1 - i] == items[i];
    }
  }

  // ---- which versions are published, told from the ops alone ----

  /** A commit is folded into the item of the run before it. */
  predicate FoldsIn(ops: seq<Op>, op: Op) {
    IsSave(op) && CommitOpRunID(op.relations) != "" && ops != [] && IsRun(ops[|ops| - 1])
    && ops[|ops| - 1].ref == CommitOpRunID(op.relations)
  }

  /** How many items a log lists. */
  function Height(ops: seq<Op>): int {
    if ops == [] then 0
    else
      var rest, op := ops[..|ops| - 1], ops[|ops| - 1];
      if IsRun(op) || (IsSave(op) && !FoldsIn(rest, op)) then Height(rest) + 1
      else if IsCommitRemove(op) then Height(rest) - op.size
      else Height(rest)
  }

  /** Op k is a push, or an unpublish, of a number of versions that reaches down to the p-th oldest item. */
  predicate Reaches(ops: seq<Op>, k: nat, typ: OpType, p: int)
    requires k < |ops|
  {
    ops[k].model == PushModel && ops[k].typ == typ && Height(ops[..k]) - ops[k].size <= p < Height(ops[..k])
  }

  /** Op j leaves the p-th oldest item and its mark alone: it does not remove it, amend it or unpublish it. */
  predicate Spares(ops: seq<Op>, j: nat, p: int)
    requires j < |ops|
  {
    && p < Height(ops[..j + 1])
    && !(IsAmend(ops[j]) && p == Height(ops[..j]) - 1)
    && !Reaches(ops, j, Remove, p)
  }

  /** Some push reached the item, and every op since spared it. */
  ghost predicate IsPublished(ops: seq<Op>, p: int) {
    exists k :: 0 <= k < |ops| && Reaches(ops, k, Init, p) && SparedSince(ops, k, p)
  }

  ghost predicate SparedSince(ops: seq<Op>, k: nat, p: int) {
    forall j :: k < j < |ops| ==> Spares(ops, j, p)
  }

  lemma SparedBefore(ops: seq<Op>, op: Op, k: nat, p: int)
    requires k < |ops|
    ensures Reaches(ops + [op], k, Init, p) <==> Reaches(ops, k, Init, p)
    ensures SparedSince(ops + [op], k, p) <==> SparedSince(ops, k, p) && Spares(ops + [op], |ops|, p)
  {
    var all := ops + [op];
    assert all[..k] == ops[..k];
    forall j | k < j < |ops| ensures Spares(all, j, p) <==> Spares(ops, j, p) {
      assert all[..j] == ops[..j] && all[..j + 1] == ops[..j + 1];
    }
  }

  lemma PublishedNext(ops: seq<Op>, op: Op, p: int)
    ensures IsPublished(ops + [op], p) <==>
            Reaches(ops + [op], |ops|, Init, p) || (IsPublished(ops, p) && Spares(ops + [op], |ops|, p))
  {
    var all, n := ops + [op], |ops|;
    if k :| 0 <= k < |all| && Reaches(all, k, Init, p) && SparedSince(all, k, p) {
      if k < n { SparedBefore(ops, op, k, p); }
    }
    if Reaches(all, n, Init, p) { assert SparedSince(all, n, p); }
    if IsPublished(ops, p) && Spares(all, n, p) {
      var k :| 0 <= k < n && Reaches(ops, k, Init, p) && SparedSince(ops, k, p);
      SparedBefore(ops, op, k, p);
      assert Reaches(all, k, Init, p) && SparedSince(all, k, p);
    }
  }

  /** Only items that are listed are published. */
  lemma {:induction false} PublishedAreListed(ops: seq<Op>, p: int)
    requires IsPublished(ops, p)
    ensures p < Height(ops)
  {
    var n := |ops| - 1;
    var k :| 0 <= k < |ops| && Reaches(ops, k, Init, p) && SparedSince(ops, k, p);
    if k < n {
      assert Spares(ops, n, p);
      assert ops[..n + 1] == ops;
    } else {
      assert ops[..k] == ops[..|ops| - 1];
    }
  }

  ghost predicate FlagsTold(refs: seq<VersionInfo>, ops: seq<Op>) {
    |refs| == Height(ops) && forall p :: 0 <= p < |refs| ==> (refs[p].published <==> IsPublished(ops, p))
  }

  /** What one op does to the flags. */
  ghost predicate FlagsMoved(refs: seq<VersionInfo>, after: seq<VersionInfo>, ops: seq<Op>, op: Op) {
    && |after| == Height(ops + [op])
    && forall p :: 0 <= p < |after| ==>
         (after[p].published <==>
          Reaches(ops + [op], |ops|, Init, p) || (p < |refs| && refs[p].published && Spares(ops + [op], |ops|, p)))
  }

  /** The same, with the last op apart from the ones before it. */
  lemma ReachedByLast(ops: seq<Op>, op: Op, p: int, typ: OpType)
    ensures Reaches(ops + [op], |ops|, typ, p) <==>
            op.model == PushModel && op.typ == typ && Height(ops) - op.size <= p < Height(ops)
  {
    assert (ops + [op])[..|ops|] == ops;
  }

  lemma SparedByLast(ops: seq<Op>, op: Op, p: int)
    ensures Spares(ops + [op], |ops|, p) <==>
            && p < Height(ops + [op]) && !(IsAmend(op) && p == Height(ops) - 1)
            && !(op.model == PushModel && op.typ == Remove && Height(ops) - op.size <= p < Height(ops))
  {
    var all := ops + [op];
    assert all[..|ops|] == ops && all[..|ops| + 1] == all;
    ReachedByLast(ops, op, p, Remove);
  }

  lemma HeightNext(ops: seq<Op>, op: Op)
    ensures Height(ops + [op]) ==
            if IsRun(op) || (IsSave(op) && !FoldsIn(ops, op)) then Height(ops) + 1
            else if IsCommitRemove(op) then Height(ops) - op.size
            else Height(ops)
  {
    var all := ops + [op];
    assert all[..|all| - 1] == ops && all[|all| - 1] == op;
  }

  /** What one op does to the flags. */
  lemma FlagsAfterStep(ref: Ref, ops: seq<Op>, op: Op, refs: seq<VersionInfo>, after: seq<VersionInfo>)
    requires |refs| == Height(ops) && OpFits(ops, op) && RunsSeen(refs, ops) && NewestIsRun(refs, ops)
    requires ItemStep(ref, ItemState(refs, 0), op, true) == Some(ItemState(after, 0))
    ensures FlagsMoved(refs, after, ops, op)
  {
    var folds := FoldsIn(ops, op);
    if IsSave(op) { MergeFollowsRun(ref, ops, op, refs); }
    HeightNext(ops, op);
    FlagsOfStep(ref, op, refs, after);
    forall p | 0 <= p < |after|
      ensures after[p].published <==>
              Reaches(ops + [op], |ops|, Init, p) || (p < |refs| && refs[p].published && Spares(ops + [op], |ops|, p))
    {
      ReachedByLast(ops, op, p, Init);
      SparedByLast(ops, op, p);
    }
  }

  lemma FlagsOfStep(ref: Ref, op: Op, refs: seq<VersionInfo>, after: seq<VersionInfo>)
    requires ItemStep(ref, ItemState(refs, 0), op, true) == Some(ItemState(after, 0))
    ensures |after| == if IsRun(op) || (IsSave(op) && !Merges(refs, op)) then |refs| + 1
                       else if IsCommitRemove(op) then |refs| - op.size
                       else |refs|
    ensures forall p :: 0 <= p < |after| ==>
              (after[p].published <==>
               (op.model == PushModel && op.typ == Init && |refs| - op.size <= p) ||
               (p < |refs| && refs[p].published && !(IsAmend(op) && p == |refs| - 1) &&
                !(op.model == PushModel && op.typ == Remove && |refs| - op.size <= p)))
  {
    if op.model == PushModel && op.typ != Amend { FlagsOfMark(refs, op.size, op.typ == Init); }
  }

  lemma FlagsOfMark(refs: seq<VersionInfo>, n: int, b: bool)
    requires n <= |refs|
    ensures var after := MarkPublished(refs, n, b);
            forall p :: 0 <= p < |after| ==> after[p].published == if |refs| - n <= p then b else refs[p].published
  {
  }

  lemma {:induction false} ItemFlags(ref: Ref, ops: seq<Op>)
    requires WellFormed(ops)
    ensures ItemReplay(ref, ops, true).Some? && FlagsTold(ItemReplay(ref, ops, true).value.refs, ops)
  {
    ItemsReplayable(ref, ops, true);
    if ops != [] {
      var rest, op := ops[..|ops| - 1], ops[|ops| - 1];
      ItemFlags(ref, rest);
      ItemsReplayable(ref, rest, true);
      assert ops == rest + [op];
      ListedNext(ref, rest, op);
      var refs, after := ItemReplay(ref, rest, true).value.refs, ItemReplay(ref, ops, true).value.refs;
      ListedItems(ref, ops);
      FlagsAfterStep(ref, rest, op, refs, after);
      FlagsStay(rest, op, refs, after);
    }
  }

  lemma FlagsStay(ops: seq<Op>, op: Op, refs: seq<VersionInfo>, after: seq<VersionInfo>)
    requires FlagsTold(refs, ops) && FlagsMoved(refs, after, ops, op)
    ensures FlagsTold(after, ops + [op])
  {
    forall p | 0 <= p < |after| ensures after[p].published <==> IsPublished(ops + [op], p) {
      PublishedNext(ops, op, p);
      if IsPublished(ops, p) { PublishedAreListed(ops, p); }
    }
  }

  /** On every well-formed log the list marks a version as published exactly when some push reached it
    * and no unpublish, amend or removal has touched it since. */
  lemma PublishedIff(ref: Ref, ops: seq<Op>, i: nat)
    requires WellFormed(ops)
    ensures |Listed(ref, ops)| == Height(ops)
    ensures i < Height(ops) ==> (Listed(ref, ops)[i].published <==> IsPublished(ops, Height(ops) - 1 - i))
  {
    ListedItems(ref, ops);
    ItemFlags(ref, ops);
    FlagsReversed(ItemReplay(ref, ops, true).value.refs, ops, i);
  }

  lemma FlagsReversed(refs: seq<VersionInfo>, ops: seq<Op>, i: nat)
    requires FlagsTold(refs, ops)
    ensures |Reverse(refs)| == Height(ops)
    ensures i < Height(ops) ==> (Reverse(refs)[i].published <==> IsPublished(ops, Height(ops) - 1 - i))
  {
    if i < Height(ops) {
      var p := |refs| - 1 - i;
      assert Reverse(refs)[i] == refs[p] && refs[p].published == IsPublished(ops, p);
    }
  }
}
