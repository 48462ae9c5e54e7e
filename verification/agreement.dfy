/** The independent replays of one branch log tell the same history (logbook/logbook.go). */
module ReplayAgreement {
  import opened Prelude
  import opened DsRef
  import opened OpLog
  import opened Replay
  import opened LatestPath

  // Version items against the path stack, the two delete modes against each other, and logs with their
  // push ops erased.

  function Paths(items: seq<VersionInfo>): (ps: seq<string>)
    ensures |ps| == |items|
    ensures forall i :: 0 <= i < |items| ==> ps[i] == items[i].path
  {
    seq(|items|, i requires 0 <= i < |items| => items[i].path)
  }

  // ---- items against the path stack ----

  /** What one op does to the paths of the items. */
  lemma PathsAfterStep(ref: Ref, st: ItemState, op: Op, collapse: bool)
    requires ItemStep(ref, st, op, collapse).Some?
    ensures var before, after := Paths(st.refs), Paths(ItemStep(ref, st, op, collapse).value.refs);
            if IsSave(op) && !Merges(st.refs, op) then after == before + [op.ref]
            else if IsSave(op) || IsAmend(op) then |before| > 0 && after == before[..|before| - 1] + [op.ref]
            else if IsCommitRemove(op) && collapse then 0 <= op.size <= |before| && after == before[..|before| - op.size]
            else if IsRun(op) then after == before + [""]
            else after == before
  {
  }

  /** With every run but possibly the last op directly followed by its commit, the item paths are
    * the path stack, plus one blank item for a run whose commit is still to come. */
  lemma {:induction false} ItemPathsAreStack(ref: Ref, ops: seq<Op>)
    requires WellFormed(ops) && PairedPrefix(ops)
    ensures PathStack(ops).Some? && ItemReplay(ref, ops, true).Some?
    ensures Paths(ItemReplay(ref, ops, true).value.refs) == PathStack(ops).value + PendingRun(ops)
  {
    ItemsReplayable(ref, ops, true);
    if ops != [] {
      var rest, op := ops[..|ops| - 1], ops[|ops| - 1];
      ItemPathsAreStack(ref, rest);
      var st := ItemReplay(ref, rest, true).value;
      PathsAfterStep(ref, st, op, true);
      assert rest != [] ==> rest[|rest| - 1] == ops[|ops| - 2];
      if IsSave(op) {
        ItemsReplayable(ref, rest, true);
        MergeFollowsRun(ref, rest, op, st.refs);
      }
      if PendingRun(rest) == [] {
        assert PathStack(rest).value + [] == PathStack(rest).value;
      }
    }
  }

  /** The blank path of a run whose commit is still to come. */
  function PendingRun(ops: seq<Op>): seq<string> {
    if ops != [] && IsRun(ops[|ops| - 1]) then [""] else []
  }

  /** The items of a branch are, newest first, the paths addReferencedPaths collects. */
  lemma ItemsListLivePaths(ref: Ref, ops: seq<Op>)
    requires WellFormed(ops) && Paired(ops)
    ensures PathStack(ops).Some? && BranchItems(ops, ref, 0, -1, true).Some?
    ensures Paths(BranchItems(ops, ref, 0, -1, true).value) == Reverse(PathStack(ops).value)
  {
    ItemPathsAreStack(ref, ops);
    LazyKeepsRemoved(ref, ops);
    var refs := ItemReplay(ref, ops, true).value.refs;
    assert Paths(refs) == PathStack(ops).value;
    assert BranchItems(ops, ref, 0, -1, true).value == Reverse(refs);
  }

  // ---- push and unpublish ops ----

  function ErasePushes(ops: seq<Op>): seq<Op> {
    if ops == [] then []
    else
      var rest := ErasePushes(ops[..|ops| - 1]);
      if ops[|ops| - 1].model == PushModel then rest else rest + [ops[|ops| - 1]]
  }

  /** The items with every published flag cleared. */
  function Unflagged(items: seq<VersionInfo>): (r: seq<VersionInfo>)
    ensures |r| == |items|
    ensures forall i :: 0 <= i < |items| ==> r[i] == items[i].(published := false)
  {
    seq(|items|, i requires 0 <= i < |items| => items[i].(published := false))
  }

  ghost predicate SameButPublished(a: seq<VersionInfo>, b: seq<VersionInfo>) {
    Unflagged(a) == Unflagged(b)
  }

  lemma PublishStep(ref: Ref, st: ItemState, op: Op, collapse: bool)
    requires op.model == PushModel && ItemStep(ref, st, op, collapse).Some?
    ensures var after := ItemStep(ref, st, op, collapse).value;
            SameButPublished(after.refs, st.refs) && after.deleteAtEnd == st.deleteAtEnd
  {
  }

  /** Every other op acts alike on items that differ in their flags only. */
  lemma OtherStep(ref: Ref, a: ItemState, b: ItemState, op: Op, collapse: bool)
    requires op.model != PushModel && SameButPublished(a.refs, b.refs) && a.deleteAtEnd == b.deleteAtEnd
    requires ItemStep(ref, a, op, collapse).Some?
    ensures ItemStep(ref, b, op, collapse).Some?
    ensures var a', b' := ItemStep(ref, a, op, collapse).value, ItemStep(ref, b, op, collapse).value;
            SameButPublished(a'.refs, b'.refs) && a'.deleteAtEnd == b'.deleteAtEnd
  {
    var n := |a.refs|;
    assert |Unflagged(a.refs)| == n == |b.refs|;
    if n > 0 {
      assert Unflagged(a.refs)[n - 1] == Unflagged(b.refs)[n - 1];
    }
    UnflaggedStep(ref, a, op, collapse);
    UnflaggedStep(ref, b, op, collapse);
  }

  /** What one op other than a push does to the items, flags aside. */
  lemma UnflaggedStep(ref: Ref, st: ItemState, op: Op, collapse: bool)
    requires op.model != PushModel && ItemStep(ref, st, op, collapse).Some?
    ensures var before, after := Unflagged(st.refs), Unflagged(ItemStep(ref, st, op, collapse).value.refs);
            var n := |before|;
            if IsSave(op) && Merges(st.refs, op) then n > 0 && after == before[n - 1 := AddCommitDetails(before[n - 1], op)]
            else if IsSave(op) then after == before + [VersionInfoFromOp(ref, op)]
            else if IsAmend(op) then n > 0 && after == before[n - 1 := VersionInfoFromOp(ref, op)]
            else if IsCommitRemove(op) && collapse then 0 <= op.size <= n && after == before[..n - op.size]
            else if IsRun(op) then after == before + [RunItemFromOp(ref, op)]
            else after == before
  {
  }

  /** Erasing every push and unpublish op changes published flags only: any log, either mode. */
  lemma {:induction false} PushesOnlyPublish(ref: Ref, ops: seq<Op>, collapse: bool)
    requires ItemReplay(ref, ops, collapse).Some?
    ensures ItemReplay(ref, ErasePushes(ops), collapse).Some?
    ensures var st, erased := ItemReplay(ref, ops, collapse).value, ItemReplay(ref, ErasePushes(ops), collapse).value;
            SameButPublished(st.refs, erased.refs) && st.deleteAtEnd == erased.deleteAtEnd
    ensures PathStack(ErasePushes(ops)) == PathStack(ops)
  {
    if ops != [] {
      var rest, op := ops[..|ops| - 1], ops[|ops| - 1];
      PushesOnlyPublish(ref, rest, collapse);
      var st := ItemReplay(ref, rest, collapse).value;
      if op.model == PushModel {
        PublishStep(ref, st, op, collapse);
      } else {
        OtherStep(ref, st, ItemReplay(ref, ErasePushes(rest), collapse).value, op, collapse);
        ItemReplaySnoc(ref, ErasePushes(rest), op, collapse);
        PathStackSnoc(ErasePushes(rest), op);
      }
    }
  }

  // ---- the two delete modes ----

  /** The total size of the commit removals of a log. */
  function Removed(ops: seq<Op>): int {
    if ops == [] then 0
    else (if IsCommitRemove(ops[|ops| - 1]) then ops[|ops| - 1].size else 0) + Removed(ops[..|ops| - 1])
  }

  /** The part of them that precedes the last amend. */
  function RemovedBeforeAmend(ops: seq<Op>): int {
    if ops == [] then 0
    else if IsAmend(ops[|ops| - 1]) then Removed(ops)
    else RemovedBeforeAmend(ops[..|ops| - 1])
  }

  lemma {:induction false} RemovedBounds(ops: seq<Op>)
    requires WellFormed(ops)
    ensures 0 <= RemovedBeforeAmend(ops) <= Removed(ops)
  {
    if ops != [] {
      RemovedBounds(ops[..|ops| - 1]);
    }
  }

  /** The lazy replay keeps every removed item and postpones the removals since the last amend. */
  lemma {:induction false} LazyKeepsRemoved(ref: Ref, ops: seq<Op>)
    requires WellFormed(ops)
    ensures ItemReplay(ref, ops, true).Some? && ItemReplay(ref, ops, false).Some?
    ensures var eager, lz := ItemReplay(ref, ops, true).value, ItemReplay(ref, ops, false).value;
            && |lz.refs| == |eager.refs| + Removed(ops)
            && eager.deleteAtEnd == 0
            && lz.deleteAtEnd == Removed(ops) - RemovedBeforeAmend(ops)
  {
    ItemsReplayable(ref, ops, true);
    ItemsReplayable(ref, ops, false);
    if ops != [] {
      var rest, op := ops[..|ops| - 1], ops[|ops| - 1];
      LazyKeepsRemoved(ref, rest);
      ItemsReplayable(ref, rest, true);
      ItemsReplayable(ref, rest, false);
      if IsSave(op) {
        MergeFollowsRun(ref, rest, op, ItemReplay(ref, rest, true).value.refs);
        MergeFollowsRun(ref, rest, op, ItemReplay(ref, rest, false).value.refs);
      }
    }
  }

  /** How long each mode's result is, and so exactly when they agree: no version was removed
    * before an amend. Without amends they always agree. */
  lemma ModesAgreeOnLengthIff(ref: Ref, ops: seq<Op>)
    requires WellFormed(ops)
    ensures BranchItems(ops, ref, 0, -1, true).Some? && BranchItems(ops, ref, 0, -1, false).Some?
    ensures var eager, lz := BranchItems(ops, ref, 0, -1, true).value, BranchItems(ops, ref, 0, -1, false).value;
            && |lz| == |eager| + RemovedBeforeAmend(ops)
            && (|lz| == |eager| <==> RemovedBeforeAmend(ops) == 0)
            && (AmendFree(ops) ==> |lz| == |eager|)
  {
    LazyKeepsRemoved(ref, ops);
    RemovedBounds(ops);
    if AmendFree(ops) { NoAmendNothingBefore(ops); }
  }

  lemma {:induction false} NoAmendNothingBefore(ops: seq<Op>)
    requires AmendFree(ops)
    ensures RemovedBeforeAmend(ops) == 0
  {
    if ops != [] {
      assert ops[|ops| - 1] in ops;
      NoAmendNothingBefore(ops[..|ops| - 1]);
    }
  }

  // ---- when the modes agree on the paths themselves ----

  /** The path of every item the lazy replay keeps: on paired logs, every path ever saved, oldest
    * first, with the newest one replaced by an amend. */
  function SavedPaths(ops: seq<Op>): seq<string> {
    if ops == [] then []
    else
      var saved, op := SavedPaths(ops[..|ops| - 1]), ops[|ops| - 1];
      if IsSave(op) then saved + [op.ref]
      else if IsAmend(op) && saved != [] then saved[..|saved| - 1] + [op.ref]
      else saved
  }

  /** The log up to its first non-empty removal. */
  function BeforeFirstRemoval(ops: seq<Op>): seq<Op> {
    if ops == [] then []
    else
      var rest := ops[..|ops| - 1];
      if Removed(rest) == 0 && !(IsCommitRemove(ops[|ops| - 1]) && ops[|ops| - 1].size > 0) then ops
      else BeforeFirstRemoval(rest)
  }

  lemma {:induction false} LazyItemPaths(ref: Ref, ops: seq<Op>)
    requires WellFormed(ops) && PairedPrefix(ops)
    ensures ItemReplay(ref, ops, false).Some?
    ensures Paths(ItemReplay(ref, ops, false).value.refs) ==
            SavedPaths(ops) + PendingRun(ops)
  {
    ItemsReplayable(ref, ops, false);
    if ops != [] {
      var rest, op := ops[..|ops| - 1], ops[|ops| - 1];
      LazyItemPaths(ref, rest);
      var st := ItemReplay(ref, rest, false).value;
      PathsAfterStep(ref, st, op, false);
      assert rest != [] ==> rest[|rest| - 1] == ops[|ops| - 2];
      if IsSave(op) {
        ItemsReplayable(ref, rest, false);
        MergeFollowsRun(ref, rest, op, st.refs);
      }
      var saved := SavedPaths(rest);
      assert saved + [] == saved;
    }
  }

  /** Survivors of a log that holds removals: the oldest ones, in place, from before the first
    * removal, then only versions saved after it. */
  ghost predicate SurvivorsSplit(live: seq<string>, saved: seq<string>, early: nat, j: nat) {
    && j <= |live| && j <= early <= |saved|
    && live[..j] == saved[..j]
    && forall k :: j <= k < |live| ==> live[k] in saved[early..]
  }

  lemma SplitPush(live: seq<string>, saved: seq<string>, early: nat, j: nat, p: string)
    requires SurvivorsSplit(live, saved, early, j)
    ensures SurvivorsSplit(live + [p], saved + [p], early, j)
  {
    var later := (saved + [p])[early..];
    assert later == saved[early..] + [p];
    forall k | j <= k < |live| + 1 ensures (live + [p])[k] in later {
      if k < |live| { assert live[k] in saved[early..]; }
    }
  }

  lemma SplitCut(live: seq<string>, saved: seq<string>, early: nat, j: nat, n: nat)
    requires SurvivorsSplit(live, saved, early, j) && n <= |live|
    ensures SurvivorsSplit(live[..n], saved, early, if n < j then n else j)
  {
    var j' := if n < j then n else j;
    assert live[..n][..j'] == live[..j][..j'];
  }

  /** How many versions saved before the first non-empty removal are still live. */
  function Kept(ops: seq<Op>): nat {
    if ops == [] then 0
    else if Removed(ops) == 0 || LiveCount(ops) < Kept(ops[..|ops| - 1]) then LiveCount(ops)
    else Kept(ops[..|ops| - 1])
  }

  lemma {:induction false} NothingRemovedYet(ops: seq<Op>)
    requires WellFormed(ops) && Removed(ops) == 0
    ensures BeforeFirstRemoval(ops) == ops && PathStack(ops) == Some(SavedPaths(ops))
  {
    if ops != [] {
      var rest, op := ops[..|ops| - 1], ops[|ops| - 1];
      RemovedBounds(rest);
      NothingRemovedYet(rest);
      var saved := SavedPaths(rest);
      assert saved + [] == saved == saved[..|saved|];
    }
  }

  lemma {:induction false} RemovalsLeaveOldest(ops: seq<Op>)
    requires WellFormed(ops) && RemovedBeforeAmend(ops) == 0 && Removed(ops) > 0
    ensures PathStack(ops).Some?
    ensures var early := |SavedPaths(BeforeFirstRemoval(ops))|;
            && SurvivorsSplit(PathStack(ops).value, SavedPaths(ops), early, Kept(ops)) && Kept(ops) < early
            && SavedPaths(BeforeFirstRemoval(ops)) == SavedPaths(ops)[..early]
  {
    WellFormedStack(ops);
    var rest, op := ops[..|ops| - 1], ops[|ops| - 1];
    RemovedBounds(rest);
    WellFormedStack(rest);
    var live, saved := PathStack(rest).value, SavedPaths(rest);
    assert saved + [] == saved;
    if Removed(rest) == 0 {
      NothingRemovedYet(rest);
      KeptAll(rest);
      SplitCut(live, saved, |saved|, |live|, |live| - op.size);
    } else {
      RemovalsLeaveOldest(rest);
      var early := |SavedPaths(BeforeFirstRemoval(rest))|;
      if IsSave(op) {
        SplitPush(live, saved, early, Kept(rest), op.ref);
      } else if IsCommitRemove(op) {
        SplitCut(live, saved, early, Kept(rest), |live| - op.size);
      }
    }
  }

  lemma KeptAll(ops: seq<Op>)
    requires WellFormed(ops) && Removed(ops) == 0
    ensures Kept(ops) == LiveCount(ops)
  {
  }

  /** The paths each mode keeps, oldest first. */
  lemma ModePaths(ref: Ref, ops: seq<Op>)
    requires WellFormed(ops) && Paired(ops) && RemovedBeforeAmend(ops) == 0
    ensures ItemReplay(ref, ops, true).Some? && ItemReplay(ref, ops, false).Some?
    ensures PathStack(ops).Some? && |PathStack(ops).value| == |SavedPaths(ops)| - Removed(ops) <= |SavedPaths(ops)|
    ensures Paths(Survivors(ItemReplay(ref, ops, true).value)) == PathStack(ops).value
    ensures Paths(Survivors(ItemReplay(ref, ops, false).value)) == SavedPaths(ops)[..|PathStack(ops).value|]
  {
    LazyKeepsRemoved(ref, ops);
    RemovedBounds(ops);
    ItemPathsAreStack(ref, ops);
    LazyItemPaths(ref, ops);
  }

  /** On paired logs, amends included, whose items have distinct paths the two modes list the same
    * paths exactly when nothing was removed before an amend and the newest surviving version was saved
    * before the first non-empty removal. */
  lemma ModesAgreeOnPathsIff(ref: Ref, ops: seq<Op>)
    requires WellFormed(ops) && Paired(ops) && Distinct(SavedPaths(ops))
    ensures BranchItems(ops, ref, 0, -1, true).Some? && BranchItems(ops, ref, 0, -1, false).Some?
    ensures PathStack(ops).Some?
    ensures var eager, lz := BranchItems(ops, ref, 0, -1, true).value, BranchItems(ops, ref, 0, -1, false).value;
            var live := PathStack(ops).value;
            Paths(eager) == Paths(lz) <==>
            RemovedBeforeAmend(ops) == 0 && (live == [] || Top(live) in SavedPaths(BeforeFirstRemoval(ops)))
  {
    WellFormedStack(ops);
    ModesAgreeOnLengthIff(ref, ops);
    if RemovedBeforeAmend(ops) == 0 {
      ModesAgree(ref, ops);
    } else {
      var eager, lz := BranchItems(ops, ref, 0, -1, true).value, BranchItems(ops, ref, 0, -1, false).value;
      assert |Paths(eager)| != |Paths(lz)|;
    }
  }

  lemma ModesAgree(ref: Ref, ops: seq<Op>)
    requires WellFormed(ops) && Paired(ops) && RemovedBeforeAmend(ops) == 0 && Distinct(SavedPaths(ops))
    requires BranchItems(ops, ref, 0, -1, true).Some? && BranchItems(ops, ref, 0, -1, false).Some?
    ensures PathStack(ops).Some?
    ensures var live := PathStack(ops).value;
            Paths(BranchItems(ops, ref, 0, -1, true).value) == Paths(BranchItems(ops, ref, 0, -1, false).value) <==>
            live == [] || Top(live) in SavedPaths(BeforeFirstRemoval(ops))
  {
    ModePaths(ref, ops);
    RemovedBounds(ops);
    var live, saved := PathStack(ops).value, SavedPaths(ops);
    if Removed(ops) > 0 {
      RemovalsLeaveOldest(ops);
      SplitDecides(live, saved, |SavedPaths(BeforeFirstRemoval(ops))|, Kept(ops));
    } else {
      NothingRemovedYet(ops);
    }
    PathsOfReversed(Survivors(ItemReplay(ref, ops, true).value), Survivors(ItemReplay(ref, ops, false).value));
  }

  lemma PathsOfReversed(a: seq<VersionInfo>, b: seq<VersionInfo>)
    ensures Paths(Reverse(a)) == Paths(Reverse(b)) <==> Paths(a) == Paths(b)
  {
    assert Paths(Reverse(a)) == Reverse(Paths(a));
    assert Paths(Reverse(b)) == Reverse(Paths(b));
    ReverseTwice(Paths(a));
    ReverseTwice(Paths(b));
  }

  lemma SplitDecides(live: seq<string>, saved: seq<string>, early: nat, j: nat)
    requires SurvivorsSplit(live, saved, early, j) && Distinct(saved) && j < early && |live| <= |saved|
    ensures live == saved[..|live|] <==> live == [] || Top(live) in saved[..early]
  {
    if |live| > j {
      assert live[j] in saved[early..];
      assert Top(live) in saved[early..];
    } else if live != [] {
      assert Top(live) == saved[|live| - 1];
      assert saved[..early][|live| - 1] == Top(live);
    }
  }

  // ---- removals that come last ----

  /** Nothing adds or amends a version or a run once a version has been removed. */
  predicate RemovalsLast(ops: seq<Op>) {
    if ops == [] then true
    else
      var rest, op := ops[..|ops| - 1], ops[|ops| - 1];
      RemovalsLast(rest) && (IsSave(op) || IsAmend(op) || IsRun(op) ==> Removed(rest) == 0)
  }

  /** The lazy replay still holds, past the items of the eager one, what it postpones removing. */
  ghost predicate Postpones(eager: ItemState, lz: ItemState, removed: int) {
    && eager.deleteAtEnd == 0 && lz.deleteAtEnd == removed && 0 <= removed <= |lz.refs|
    && Paths(eager.refs) == Paths(lz.refs)[..|lz.refs| - removed]
    && (removed == 0 ==> eager == lz)
  }

  lemma {:induction false} LazyPostpones(ref: Ref, ops: seq<Op>)
    requires WellFormed(ops) && RemovalsLast(ops)
    ensures ItemReplay(ref, ops, true).Some? && ItemReplay(ref, ops, false).Some?
    ensures Postpones(ItemReplay(ref, ops, true).value, ItemReplay(ref, ops, false).value, Removed(ops))
  {
    ItemsReplayable(ref, ops, true);
    ItemsReplayable(ref, ops, false);
    if ops != [] {
      var rest, op := ops[..|ops| - 1], ops[|ops| - 1];
      LazyPostpones(ref, rest);
      RemovedBounds(ops);
      RemovedBounds(rest);
      PostponesStep(ref, ItemReplay(ref, rest, true).value, ItemReplay(ref, rest, false).value, op, Removed(rest));
    }
  }

  lemma PostponesStep(ref: Ref, eager: ItemState, lz: ItemState, op: Op, removed: int)
    requires Postpones(eager, lz, removed)
    requires IsSave(op) || IsAmend(op) || IsRun(op) ==> removed == 0
    requires IsCommitRemove(op) ==> op.size >= 0
    requires ItemStep(ref, eager, op, true).Some? && ItemStep(ref, lz, op, false).Some?
    ensures Postpones(ItemStep(ref, eager, op, true).value, ItemStep(ref, lz, op, false).value,
                      removed + if IsCommitRemove(op) then op.size else 0)
  {
    PathsAfterStep(ref, eager, op, true);
    PathsAfterStep(ref, lz, op, false);
  }

  /** On every well-formed log, with amends and with runs that made no commit, whose removals all come
    * last, both modes list the same paths. */
  lemma RemovalsLastAgree(ref: Ref, ops: seq<Op>)
    requires WellFormed(ops) && RemovalsLast(ops)
    ensures BranchItems(ops, ref, 0, -1, true).Some? && BranchItems(ops, ref, 0, -1, false).Some?
    ensures Paths(BranchItems(ops, ref, 0, -1, true).value) == Paths(BranchItems(ops, ref, 0, -1, false).value)
  {
    LazyPostpones(ref, ops);
    var eager, lz := ItemReplay(ref, ops, true).value, ItemReplay(ref, ops, false).value;
    assert Paths(Survivors(eager)) == Paths(Survivors(lz));
    PathsOfReversed(Survivors(eager), Survivors(lz));
  }
}
