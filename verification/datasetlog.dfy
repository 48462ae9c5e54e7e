/** Listing the versions of a dataset, from the logbook or by walking the stored chain, a page at a
  * time (base/log.go). */
module DatasetHistory {
  import opened Prelude
  import opened DsRef
  import opened OpLog
  import opened Replay
  import opened ReplayAgreement
  import opened ContentStore
  import opened VersionRuns

  datatype LogError = NoHistory | PathRequired | Timeout | Panicked

  /** The paths a walk sent, and whether it finished instead of running into its timeout. */
  datatype Walked = Walked(log: seq<string>, done: bool)

  /** What a walk finds: the stored versions from offset on, at most limit of them when limit is
    * positive; it times out when it needs an ancestor that is not in the store. */
  ghost function WalkPage(history: seq<string>, complete: bool, offset: int, limit: int): Walked {
    var rest := history[From(offset, |history|)..];
    if 0 < limit <= |rest| then Walked(rest[..limit], true) else Walked(rest, complete)
  }

  /** A page is the slice that offset and limit tell; it is done when it is full or the history ends. */
  ghost predicate IsSlice(page: Walked, h: seq<string>, complete: bool, offset: int, limit: int) {
    var from := if offset <= 0 then 0 else if offset > |h| then |h| else offset;
    var full := limit > 0 && from + limit <= |h|;
    && page.log == (if full then h[from..from + limit] else h[from..])
    && (page.done <==> full || complete)
  }

  /** The walk itself, one version at a time, on top of what it has sent so far. */
  ghost function Walk(store: Store, depth: string -> nat, path: string, offset: int, limit: int, sent: seq<string>): Walked
    requires Ranked(store, depth)
    decreases depth(path)
  {
    if path !in store then Walked(sent, false)
    else
      var prev := store[path].previousPath;
      var now := if offset <= 0 then sent + [path] else sent;
      var left := if offset <= 0 then limit - 1 else limit;
      if (offset <= 0 && left == 0) || prev == "" then Walked(now, true)
      else Walk(store, depth, prev, offset - 1, left, now)
  }

  /** Walks back from headPath, a page at a time. */
  method StoredHistoricalDatasets(store: Store, headPath: string, offset: int, limit: int, ghost depth: string -> nat)
    returns (walked: Walked)
    requires Ranked(store, depth)
    ensures walked == WalkPage(History(store, depth, headPath), Complete(store, depth, headPath), offset, limit)
    ensures IsSlice(walked, History(store, depth, headPath), Complete(store, depth, headPath), offset, limit)
  {
    ghost var page := WalkIsPage(store, depth, headPath, offset, limit);
    var path, skip, left, log := headPath, offset, limit, [];
    while true
      invariant page == Walk(store, depth, path, skip, left, log)
      decreases depth(path)
    {
      if path !in store {
        return Walked(log, false);
      }
      var ds := store[path];
      if skip <= 0 {
        log := log + [path];
        left := left - 1;
        if left == 0 {
          return Walked(log, true);
        }
      }
      if ds.previousPath == "" {
        return Walked(log, true);
      }
      path := ds.previousPath;
      skip := skip - 1;
    }
  }

  lemma WalkIsPage(store: Store, depth: string -> nat, path: string, offset: int, limit: int) returns (page: Walked)
    requires Ranked(store, depth)
    ensures page == Walk(store, depth, path, offset, limit, [])
    ensures page == WalkPage(History(store, depth, path), Complete(store, depth, path), offset, limit)
    ensures IsSlice(page, History(store, depth, path), Complete(store, depth, path), offset, limit)
  {
    page := Walk(store, depth, path, offset, limit, []);
    WalkFollowsHistory(store, depth, path, offset, limit, []);
    ListIsPage(History(store, depth, path), Complete(store, depth, path), offset, limit, page);
  }

  lemma ListIsPage(h: seq<string>, complete: bool, offset: int, limit: int, page: Walked)
    requires page == WalkList(h, complete, offset, limit, [])
    ensures page == WalkPage(h, complete, offset, limit)
    ensures IsSlice(page, h, complete, offset, limit)
  {
    WalkListIsPage(h, complete, offset, limit, []);
    PageIsSlice(h, complete, offset, limit);
  }

  lemma PageIsSlice(h: seq<string>, complete: bool, offset: int, limit: int)
    ensures IsSlice(WalkPage(h, complete, offset, limit), h, complete, offset, limit)
  {
    var from := From(offset, |h|);
    if 0 < limit <= |h[from..]| { assert h[from..][..limit] == h[from..from + limit]; }
  }

  /** The walk over a history already collected. */
  ghost function WalkList(history: seq<string>, complete: bool, offset: int, limit: int, sent: seq<string>): Walked {
    if history == [] then Walked(sent, complete)
    else
      var now := if offset <= 0 then sent + [history[0]] else sent;
      var left := if offset <= 0 then limit - 1 else limit;
      if offset <= 0 && left == 0 then Walked(now, true)
      else WalkList(history[1..], complete, offset - 1, left, now)
  }

  lemma {:induction false} WalkFollowsHistory(store: Store, depth: string -> nat, path: string, offset: int, limit: int, sent: seq<string>)
    requires Ranked(store, depth)
    ensures Walk(store, depth, path, offset, limit, sent) ==
            WalkList(History(store, depth, path), Complete(store, depth, path), offset, limit, sent)
    decreases depth(path)
  {
    if path in store {
      var history, prev := History(store, depth, path), store[path].previousPath;
      var now := if offset <= 0 then sent + [path] else sent;
      var left := if offset <= 0 then limit - 1 else limit;
      if prev == "" {
        assert history[1..] == [];
      } else {
        assert history[1..] == History(store, depth, prev);
        WalkFollowsHistory(store, depth, prev, offset - 1, left, now);
      }
    }
  }

  lemma {:induction false} WalkListIsPage(history: seq<string>, complete: bool, offset: int, limit: int, sent: seq<string>)
    ensures WalkList(history, complete, offset, limit, sent).log == sent + WalkPage(history, complete, offset, limit).log
    ensures WalkList(history, complete, offset, limit, sent).done == WalkPage(history, complete, offset, limit).done
  {
    if history == [] {
      assert sent + [] == sent;
    } else {
      PageCons(history, complete, offset, limit);
      if offset > 0 {
        WalkListIsPage(history[1..], complete, offset - 1, limit, sent);
      } else if limit != 1 {
        WalkListIsPage(history[1..], complete, offset - 1, limit - 1, sent + [history[0]]);
        Shift(sent, history[0], WalkPage(history[1..], complete, offset - 1, limit - 1).log);
      }
    }
  }

  lemma Shift(sent: seq<string>, path: string, rest: seq<string>)
    ensures sent + [path] + rest == sent + ([path] + rest)
  {
  }

  lemma PageCons(history: seq<string>, complete: bool, offset: int, limit: int)
    requires history != []
    ensures var page := WalkPage(history, complete, offset, limit);
            if offset > 0 then page == WalkPage(history[1..], complete, offset - 1, limit)
            else if limit == 1 then page == Walked([history[0]], true)
            else
              var rest := WalkPage(history[1..], complete, offset - 1, limit - 1);
              page == Walked([history[0]] + rest.log, rest.done)
  {
    var rest := history[1..];
    if offset > 0 {
      assert history[From(offset, |history|)..] == rest[From(offset - 1, |rest|)..];
    } else {
      assert history[0..] == history && rest[0..] == rest;
      if 1 < limit <= |history| {
        assert history[..limit] == [history[0]] + rest[..limit - 1];
      }
    }
  }

  function From(offset: int, length: nat): (from: nat)
    ensures from <= length
  {
    if offset < 0 then 0 else if offset > length then length else offset
  }

  /** The logbook answers when it knows the dataset, the stored chain otherwise. */
  method DatasetLog(branch: Option<seq<Op>>, store: Store, ref: Ref, limit: int, offset: int, ghost depth: string -> nat)
    returns (paths: Result<seq<string>, LogError>)
    requires Ranked(store, depth)
    ensures branch.Some? ==>
              paths == match BranchItems(branch.value, ref, offset, limit, true)
                       case None => Err(Panicked)
                       case Some(items) => if items == [] then Err(NoHistory) else Ok(Paths(items))
    ensures branch.None? ==>
              paths == if ref.path == "" then Err(PathRequired)
                       else
                         var page := WalkPage(History(store, depth, ref.path), Complete(store, depth, ref.path), offset, limit);
                         if page.done then Ok(page.log) else Err(Timeout)
  {
    if branch.Some? {
      var items := BranchToVersionInfos(branch.value, ref, offset, limit, true);
      if items.None? { return Err(Panicked); }
      if |items.value| == 0 { return Err(NoHistory); }
      return Ok(Paths(items.value));
    }
    if ref.path == "" { return Err(PathRequired); }
    var walked := StoredHistoricalDatasets(store, ref.path, offset, limit, depth);
    paths := if walked.done then Ok(walked.log) else Err(Timeout);
  }

  /** Where log and chain agree and every run is followed by its commit, the log gives a page exactly
    * for offsets of at least 0 and limits of at least -1, and panics otherwise; the two sources then
    * give the same page for every limit but one: a limit of 0 is an empty page of the log and the
    * whole rest of the chain. */
  lemma SourcesAgreeIff(b: Branch, ref: Ref, offset: int, limit: int, depth: string -> nat)
    requires Agree(b, depth) && Paired(b.ops) && b.head.Some?
    ensures BranchItems(b.ops, ref, offset, limit, true).Some? <==> offset >= 0 && limit >= -1
    ensures BranchItems(b.ops, ref, offset, limit, true).Some? ==>
            var live := PathStack(b.ops).value;
            var page := Paths(BranchItems(b.ops, ref, offset, limit, true).value);
            var walk := WalkPage(History(b.store, depth, b.head.value), Complete(b.store, depth, b.head.value), offset, limit);
            && walk.done
            && (page == walk.log <==> limit != 0 || offset >= |live|)
            && (limit > 0 ==>
                  var from := if offset > |live| then |live| else offset;
                  var to := if offset + limit > |live| then |live| else offset + limit;
                  page == if from <= to then Reverse(live)[from..to] else [])
  {
    ItemsListLivePaths(ref, b.ops);
    ItemsPage(b.ops, ref, offset, limit);
    var all, live := BranchItems(b.ops, ref, 0, -1, true).value, PathStack(b.ops).value;
    assert |all| == |Paths(all)| == |live|;
    if offset >= 0 && limit >= -1 {
      PageOfPaths(all, Reverse(live), offset, limit);
      SliceIsWalkIff(Reverse(live), offset, limit);
    }
  }

  lemma SliceIsWalkIff(history: seq<string>, offset: nat, limit: int)
    requires limit >= -1
    ensures var from := if offset > |history| then |history| else offset;
            var to := if limit == -1 || from + limit > |history| then |history| else from + limit;
            var walk := WalkPage(history, true, offset, limit);
            walk.done && (history[from..to] == walk.log <==> limit != 0 || offset >= |history|)
  {
  }

  /** The paths of a page are the page of the paths: the slice offset..offset+limit, cut at the end. */
  lemma PageOfPaths(items: seq<VersionInfo>, paths: seq<string>, offset: nat, limit: int)
    requires Paths(items) == paths && limit >= -1
    ensures Page(items, offset, limit).Some?
    ensures var from := if offset > |paths| then |paths| else offset;
            var to := if limit == -1 || from + limit > |paths| then |paths| else from + limit;
            Paths(Page(items, offset, limit).value) == paths[from..to]
  {
    assert |items| == |paths|;
    var from := if offset > |paths| then |paths| else offset;
    assert Paths(items[from..]) == paths[from..];
    if 0 <= limit < |paths| - from {
      assert Paths(items[from..][..limit]) == paths[from..][..limit];
    }
  }

  lemma ItemsPage(ops: seq<Op>, ref: Ref, offset: int, limit: int)
    requires BranchItems(ops, ref, 0, -1, true).Some?
    ensures BranchItems(ops, ref, offset, limit, true) == Page(BranchItems(ops, ref, 0, -1, true).value, offset, limit)
  {
  }
}
