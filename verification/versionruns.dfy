/** Runs of saves and removals on one dataset (base/save.go, base/remove.go). */
module VersionRuns {
  import opened Prelude
  import opened OpLog
  import opened LatestPath
  import opened Writes
  import opened Logbook
  import opened ContentStore

  // The chain in the store, the ref store's head and the branch log agree after every step.

  /** The store with some versions deleted. */
  function Without(store: Store, gone: seq<string>): (rest: Store)
    ensures forall p :: p in rest <==> p in store && p !in gone
    ensures forall p :: p in rest ==> rest[p] == store[p]
  {
    map p | p in store && p !in gone :: store[p]
  }

  /** How many versions a removal of n deletes from a history of the given length. */
  function Deleted(n: int, length: nat): nat {
    if n < 0 || n > length then length else n
  }

  /** The version the removal leaves the reference at: the first kept one, or, with none kept, the
    * last deleted one. */
  function RewoundTo(history: seq<string>, n: int): string
    requires history != []
  {
    var k := Deleted(n, |history|);
    if k < |history| then history[k] else history[|history| - 1]
  }

  /** What a repository knows of one dataset. */
  datatype Branch = Branch(store: Store, head: Option<string>, ops: seq<Op>)

  datatype Act =
    | SaveAct(ds: Version, components: map<Component, string>, run: Option<RunState>)
    | RemoveAct(n: int)
    | LogAct(w: Write)

  function HeadPath(head: Option<string>): string {
    match head case None => "" case Some(p) => p
  }

  /** A save on top of the current head: SaveDataset with prevPath the head. */
  function AfterSave(b: Branch, ds: Version, components: map<Component, string>, run: Option<RunState>): Branch {
    Branch(b.store[ds.path := Stored(HeadPath(b.head), components)], Some(ds.path), b.ops + WriteOps(Save(ds, run)))
  }

  /** A removal of n versions from the current head. */
  ghost function AfterRemove(b: Branch, n: int, depth: string -> nat): Branch
    requires Ranked(b.store, depth) && HeadPath(b.head) in b.store
  {
    var history := History(b.store, depth, HeadPath(b.head));
    Branch(Without(b.store, history[..Deleted(n, |history|)]), Some(RewoundTo(history, n)), b.ops + WriteOps(Delete(n)))
  }

  /** The three copies of the history agree: the chain from the head is, newest first, the stack of
    * live paths of the log, and is all in the store. */
  ghost predicate Agree(b: Branch, depth: string -> nat) {
    && Ranked(b.store, depth) && "" !in b.store && WellFormed(b.ops) && PathStack(b.ops).Some?
    && var live := PathStack(b.ops).value;
       if live == [] then b.head == None
       else
         && b.head == Some(Top(live)) && Complete(b.store, depth, Top(live))
         && History(b.store, depth, Top(live)) == Reverse(live)
  }

  /** The path a save is given is new to the store, and addresses contents that name its parent. */
  ghost predicate NewPath(b: Branch, ds: Version, depth: string -> nat) {
    && ds.path != "" && ds.path !in b.store
    && ds.previousPath == HeadPath(b.head)
    && (ds.previousPath != "" ==> depth(ds.previousPath) < depth(ds.path))
  }

  /** There is a log, and it agrees with store and head, whoever its author is. */
  ghost predicate AgreeIn(users: seq<UserLog>, id: string, store: Store, head: Option<string>, depth: string -> nat) {
    BranchAnyAuthor(users, id).Ok? && Agree(Branch(store, head, BranchAnyAuthor(users, id).value), depth)
  }

  /** A save keeps the three in agreement exactly when the logbook returns no error: a run that does not
    * match the commit, or a log of another author, is refused only after the store and the head have
    * moved. (Without a log for the dataset there is nothing to agree with.) */
  lemma SaveKeepsAgreementIff(users: seq<UserLog>, authorID: string, id: string, store: Store, head: Option<string>,
                              ds: Version, components: map<Component, string>, run: Option<RunState>, depth: string -> nat)
    requires AgreeIn(users, id, store, head, depth)
    requires NewPath(Branch(store, head, BranchAnyAuthor(users, id).value), ds, depth)
    requires Permitted(BranchAnyAuthor(users, id).value, Save(ds, run))
    ensures var o := SaveOutcome(users, authorID, id, ds, run);
            AgreeIn(o.users, id, store[ds.path := Stored(HeadPath(head), components)], Some(ds.path), depth) <==> o.err.None?
  {
    var b := Branch(store, head, BranchAnyAuthor(users, id).value);
    SavedBranch(users, authorID, id, ds, run, b.ops);
    if SaveOutcome(users, authorID, id, ds, run).err.None? {
      AcceptedSaveAgrees(b, ds, components, run, depth);
    } else {
      MovedAlone(b, ds, components, depth);
    }
  }

  /** A save that the logbook accepts appends its ops; one that it refuses leaves the log as it was. */
  lemma SavedBranch(users: seq<UserLog>, authorID: string, id: string, ds: Version, run: Option<RunState>, ops: seq<Op>)
    requires BranchAnyAuthor(users, id) == Ok(ops)
    ensures var o := SaveOutcome(users, authorID, id, ds, run);
            && (o.err.None? ==> Accepted(Save(ds, run)))
            && BranchAnyAuthor(o.users, id) == Ok(if o.err.None? then ops + WriteOps(Save(ds, run)) else ops)
  {
    if BranchOf(users, authorID, id).Ok? && Accepted(Save(ds, run)) {
      BranchAfterWrite(users, authorID, id, ops + WriteOps(Save(ds, run)), id);
    }
  }

  /** A store and a head that move on without their log no longer agree with it. */
  lemma MovedAlone(b: Branch, ds: Version, components: map<Component, string>, depth: string -> nat)
    requires Agree(b, depth) && NewPath(b, ds, depth)
    ensures !Agree(Branch(b.store[ds.path := Stored(HeadPath(b.head), components)], Some(ds.path), b.ops), depth)
  {
    if PathStack(b.ops).value != [] {
      assert b.head.value in History(b.store, depth, b.head.value);
    }
  }

  /** The same for a log the author may write to. */
  lemma SaveStepIff(b: Branch, ds: Version, components: map<Component, string>, run: Option<RunState>, depth: string -> nat)
    requires Agree(b, depth) && NewPath(b, ds, depth) && Permitted(b.ops, Save(ds, run))
    ensures Agree(AfterSave(b, ds, components, run), depth) <==> Accepted(Save(ds, run))
  {
    if Accepted(Save(ds, run)) {
      AcceptedSaveAgrees(b, ds, components, run, depth);
    } else {
      assert AfterSave(b, ds, components, run).ops == b.ops;
      MovedAlone(b, ds, components, depth);
    }
  }

  lemma AcceptedSaveAgrees(b: Branch, ds: Version, components: map<Component, string>, run: Option<RunState>, depth: string -> nat)
    requires Agree(b, depth) && NewPath(b, ds, depth) && Permitted(b.ops, Save(ds, run)) && Accepted(Save(ds, run))
    ensures Agree(AfterSave(b, ds, components, run), depth)
  {
    var b' := AfterSave(b, ds, components, run);
    PermittedKeepsWellFormed(b.ops, Save(ds, run));
    SavePushesPath(b.ops, ds, run);
    ParentHistory(b, ds.previousPath, depth);
    NewVersionExtends(b.store, depth, ds.path, Stored(HeadPath(b.head), components));
    Extended(b', PathStack(b.ops).value, ds.path, depth);
  }

  /** The history a new version grows from. */
  lemma ParentHistory(b: Branch, prev: string, depth: string -> nat)
    requires Agree(b, depth) && prev == HeadPath(b.head)
    ensures (if prev == "" then [] else History(b.store, depth, prev)) == Reverse(PathStack(b.ops).value)
    ensures prev != "" ==> Complete(b.store, depth, prev)
  {
    if PathStack(b.ops).value != [] { assert prev in History(b.store, depth, prev); }
  }

  lemma Extended(b: Branch, live: seq<string>, path: string, depth: string -> nat)
    requires Ranked(b.store, depth) && "" !in b.store && WellFormed(b.ops) && PathStack(b.ops) == Some(live + [path])
    requires b.head == Some(path) && Complete(b.store, depth, path)
    requires History(b.store, depth, path) == [path] + Reverse(live)
    ensures Agree(b, depth)
  {
    ReversePush(live, path);
  }

  lemma ReversePush(live: seq<string>, path: string)
    ensures Reverse(live + [path]) == [path] + Reverse(live) && Top(live + [path]) == path
  {
  }

  /** Storing a version under a new path puts it in front of the history of its parent. */
  lemma NewVersionExtends(store: Store, depth: string -> nat, path: string, v: Stored)
    requires Ranked(store, depth) && path !in store
    requires v.previousPath != "" ==> depth(v.previousPath) < depth(path) && Complete(store, depth, v.previousPath)
    ensures var after := store[path := v];
            && Ranked(after, depth) && Complete(after, depth, path)
            && History(after, depth, path) ==
               [path] + if v.previousPath == "" then [] else History(store, depth, v.previousPath)
  {
    if v.previousPath != "" {
      HistoryLocal(store, store[path := v], depth, v.previousPath);
    }
  }

  lemma SavePushesPath(ops: seq<Op>, ds: Version, run: Option<RunState>)
    requires PathStack(ops).Some? && Accepted(Save(ds, run))
    ensures PathStack(ops + WriteOps(Save(ds, run))) == Some(PathStack(ops).value + [ds.path])
  {
    match run {
      case None =>
        PathStackSnoc(ops, SaveOp(ds));
        assert WriteOps(Save(ds, run)) == [SaveOp(ds)];
      case Some(rs) =>
        PathStackSnoc(ops, RunOp(rs));
        PathStackSnoc(ops + [RunOp(rs)], SaveOp(ds));
        assert ops + WriteOps(Save(ds, run)) == ops + [RunOp(rs)] + [SaveOp(ds)];
    }
  }

  /** A removal keeps the three in agreement exactly when it removes some but not all versions, or
    * none: with none kept the head dangles, beyond that or with -1 the log cannot be replayed. */
  lemma RemoveKeepsAgreementIff(b: Branch, n: int, depth: string -> nat)
    requires Agree(b, depth) && b.head.Some? && n >= -1
    ensures HeadPath(b.head) in b.store
    ensures Agree(AfterRemove(b, n, depth), depth) <==> 0 <= n < LiveCount(b.ops)
  {
    var live := PathStack(b.ops).value;
    var b' := AfterRemove(b, n, depth);
    WellFormedSnoc(b.ops, DeleteOp(n));
    PathStackSnoc(b.ops, DeleteOp(n));
    if 0 <= n < |live| {
      RemovalCutsChain(b, n, depth);
    }
  }

  /** b' is b without the n newest of the live versions: they alone have left the store, and the rest
    * is live. */
  ghost predicate Cuts(b: Branch, b': Branch, live: seq<string>, n: nat) {
    && PathStack(b.ops) == Some(live) && n < |live| && PathStack(b'.ops) == Some(live[..|live| - n])
    && (forall p :: p in b'.store <==> p in b.store && p !in live[|live| - n..])
  }

  /** A removal of n deletes the n newest live versions from the store, nothing else, and leaves the
    * rest as the history of the new head. */
  lemma RemovalCutsChain(b: Branch, n: nat, depth: string -> nat)
    requires Agree(b, depth) && n < LiveCount(b.ops)
    ensures HeadPath(b.head) in b.store
    ensures Cuts(b, AfterRemove(b, n, depth), PathStack(b.ops).value, n) && Agree(AfterRemove(b, n, depth), depth)
  {
    PartialRemoval(b, n, depth);
    CutBranch(b, AfterRemove(b, n, depth), PathStack(b.ops).value, n, depth);
  }

  lemma CutBranch(b: Branch, b': Branch, live: seq<string>, n: nat, depth: string -> nat)
    requires Agree(b, depth) && PathStack(b.ops) == Some(live) && n < |live|
    requires b' == Branch(Without(b.store, Reverse(live)[..n]), Some(Reverse(live)[n]), b.ops + [DeleteOp(n)])
    ensures Cuts(b, b', live, n) && Agree(b', depth)
  {
    ReverseCut(live, n);
    SameElements(live[|live| - n..]);
    RemovedOps(b.ops, n);
    CutKeepsRest(b.store, depth, Top(live), n);
    CutAgrees(b', live, n, depth);
  }

  lemma RemovedOps(ops: seq<Op>, n: nat)
    requires WellFormed(ops) && PathStack(ops).Some? && n <= LiveCount(ops)
    ensures var live := PathStack(ops).value;
            n <= |live| && WellFormed(ops + [DeleteOp(n)]) && PathStack(ops + [DeleteOp(n)]) == Some(live[..|live| - n])
  {
    assert OpFits(ops, DeleteOp(n));
    WellFormedSnoc(ops, DeleteOp(n));
    assert PathStep(PathStack(ops).value, DeleteOp(n)) == Some(PathStack(ops).value[..LiveCount(ops) - n]);
    PathStackSnoc(ops, DeleteOp(n));
  }

  lemma CutAgrees(b: Branch, live: seq<string>, n: nat, depth: string -> nat)
    requires n < |live| && Ranked(b.store, depth) && "" !in b.store && WellFormed(b.ops)
    requires PathStack(b.ops) == Some(live[..|live| - n]) && b.head == Some(Reverse(live)[n])
    requires Complete(b.store, depth, Reverse(live)[n]) && History(b.store, depth, Reverse(live)[n]) == Reverse(live)[n..]
    ensures Agree(b, depth)
  {
    ReverseCut(live, n);
  }

  lemma PartialRemoval(b: Branch, n: nat, depth: string -> nat)
    requires Agree(b, depth) && n < LiveCount(b.ops)
    ensures HeadPath(b.head) in b.store
    ensures var history := Reverse(PathStack(b.ops).value);
            AfterRemove(b, n, depth) == Branch(Without(b.store, history[..n]), Some(history[n]), b.ops + [DeleteOp(n)])
  {
  }

  lemma ReverseCut(live: seq<string>, n: nat)
    requires n < |live|
    ensures Reverse(live)[n..] == Reverse(live[..|live| - n])
    ensures Reverse(live)[..n] == Reverse(live[|live| - n..])
    ensures Reverse(live)[n] == Top(live[..|live| - n])
  {
  }

  /** Deleting the n newest versions of a complete history leaves the rest of it complete. */
  lemma CutKeepsRest(store: Store, depth: string -> nat, path: string, n: nat)
    requires Ranked(store, depth) && Complete(store, depth, path) && n < |History(store, depth, path)|
    ensures var history := History(store, depth, path);
            var rest := Without(store, history[..n]);
            Ranked(rest, depth) && Complete(rest, depth, history[n]) && History(rest, depth, history[n]) == history[n..]
  {
    var history := History(store, depth, path);
    HistoryDescends(store, depth, path);
    HistorySuffix(store, depth, path, n);
    var rest := Without(store, history[..n]);
    forall p | p in history[n..] ensures p in rest && rest[p] == store[p] {
      var i :| n <= i < |history| && history[i] == p;
      assert p !in history[..n];
    }
    HistoryLocal(store, rest, depth, history[n]);
  }

  lemma SameElements(s: seq<string>)
    ensures forall p :: p in Reverse(s) <==> p in s
  {
    forall p | p in s ensures p in Reverse(s) {
      var i :| 0 <= i < |s| && s[i] == p;
      assert Reverse(s)[|s| - 1 - i] == p;
    }
  }

  // ---- whole runs ----

  ghost predicate CanDo(b: Branch, act: Act, depth: string -> nat) {
    match act
    case SaveAct(ds, _, run) => NewPath(b, ds, depth) && Permitted(b.ops, Save(ds, run)) && Accepted(Save(ds, run))
    case RemoveAct(n) => 0 <= n < LiveCount(b.ops)
    case LogAct(w) => (w.TransformRun? || w.Push? || w.Unpublish?) && Permitted(b.ops, w)
  }

  ghost function Do(b: Branch, act: Act, depth: string -> nat): Branch {
    match act
    case SaveAct(ds, components, run) => AfterSave(b, ds, components, run)
    case RemoveAct(n) =>
      if Ranked(b.store, depth) && HeadPath(b.head) in b.store then AfterRemove(b, n, depth) else b
    case LogAct(w) => b.(ops := b.ops + WriteOps(w))
  }

  ghost function DoAll(b: Branch, acts: seq<Act>, depth: string -> nat): Branch {
    if acts == [] then b else Do(DoAll(b, acts[..|acts| - 1], depth), acts[|acts| - 1], depth)
  }

  ghost predicate CanDoAll(b: Branch, acts: seq<Act>, depth: string -> nat) {
    acts == []
    || (CanDoAll(b, acts[..|acts| - 1], depth) && CanDo(DoAll(b, acts[..|acts| - 1], depth), acts[|acts| - 1], depth))
  }

  /** Over every run of saves on the current head, partial removals, runs, pushes and unpublishes the
    * chain, the head and the log keep telling the same history. */
  lemma {:induction false} RunsAgree(b: Branch, acts: seq<Act>, depth: string -> nat)
    requires Agree(b, depth) && CanDoAll(b, acts, depth)
    ensures Agree(DoAll(b, acts, depth), depth)
  {
    if acts != [] {
      var before, act := DoAll(b, acts[..|acts| - 1], depth), acts[|acts| - 1];
      RunsAgree(b, acts[..|acts| - 1], depth);
      match act {
        case SaveAct(ds, components, run) => SaveStepIff(before, ds, components, run, depth);
        case RemoveAct(n) => RemoveKeepsAgreementIff(before, n, depth);
        case LogAct(w) =>
          PermittedKeepsWellFormed(before.ops, w);
          PathStackSnoc(before.ops, WriteOps(w)[0]);
          assert WriteOps(w) == [WriteOps(w)[0]];
      }
    }
  }

  /** A new branch: nothing stored, no head. */
  lemma NewBranchAgrees(start: seq<Op>, depth: string -> nat)
    requires IsBranchStart(start)
    ensures Agree(Branch(map[], None, start), depth)
  {
    StartIsEmpty(start, start[0]);
  }

  lemma StartIsEmpty(start: seq<Op>, op: Op)
    requires start == [op] && op.model == BranchModel
    ensures WellFormed(start) && PathStack(start) == Some([])
  {
    assert start[..0] == [];
    assert PathStack([]) == Some([]) && WellFormed([]);
    assert OpFits([], op) && PathStep([], op) == Some([]);
  }

  /** So they do over every such run from a new branch on. */
  lemma RunsFromNewAgree(start: seq<Op>, acts: seq<Act>, depth: string -> nat)
    requires IsBranchStart(start) && CanDoAll(Branch(map[], None, start), acts, depth)
    ensures Agree(DoAll(Branch(map[], None, start), acts, depth), depth)
  {
    NewBranchAgrees(start, depth);
    RunsAgree(Branch(map[], None, start), acts, depth);
  }

  /** The logbook's own idea of the head matches the ref store's, with every path written once,
    * exactly when no version was removed since the last save. */
  lemma ResolvedHeadAgreesIff(b: Branch, depth: string -> nat)
    requires Agree(b, depth) && DistinctPaths(b.ops)
    ensures LatestSavePath(b.ops) == HeadPath(b.head) <==> TrailingRemoves(b.ops) == 0
  {
    LatestSavePathCorrectIff(b.ops);
  }
}
