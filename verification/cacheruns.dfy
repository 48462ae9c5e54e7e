/** Logbook writes with a dscache listening (dscache/dscache.go, dscache/convert.go). */
module CacheRuns {
  import opened Prelude
  import opened OpLog
  import opened Writes
  import opened Logbook
  import opened CacheEntries
  import opened DsCache
  import opened CacheConvert

  // Over runs of writes: the cache updated by their events against the cache rebuilt from the logbook.

  // ---- dataset IDs are unique ----

  function IDs(datasets: seq<DatasetLog>): set<string> { set d | d in datasets :: d.id }

  ghost predicate DistinctIDs(datasets: seq<DatasetLog>) {
    forall i, j :: 0 <= i < j < |datasets| ==> datasets[i].id != datasets[j].id
  }

  function BookIDs(users: seq<UserLog>): set<string> {
    if users == [] then {} else IDs(users[0].datasets) + BookIDs(users[1..])
  }

  /** No two datasets of the book share an ID. */
  ghost predicate UniqueIDs(users: seq<UserLog>) {
    users == []
    || (DistinctIDs(users[0].datasets) && IDs(users[0].datasets) !! BookIDs(users[1..]) && UniqueIDs(users[1..]))
  }

  lemma IDsAfterReplace(datasets: seq<DatasetLog>, i: nat, d: DatasetLog)
    requires i < |datasets| && datasets[i].id == d.id
    ensures IDs(datasets[i := d]) == IDs(datasets)
    ensures DistinctIDs(datasets) ==> DistinctIDs(datasets[i := d])
  {
    forall id | id in IDs(datasets) ensures id in IDs(datasets[i := d]) {
      var k :| 0 <= k < |datasets| && datasets[k].id == id;
      assert datasets[i := d][k].id == id;
    }
    forall id | id in IDs(datasets[i := d]) ensures id in IDs(datasets) {
      var k :| 0 <= k < |datasets| && datasets[i := d][k].id == id;
      assert datasets[k].id == id;
    }
  }

  lemma {:induction false} WithDatasetKeepsIDs(users: seq<UserLog>, id: string, d: DatasetLog)
    requires d.id == id
    ensures BookIDs(WithDataset(users, id, d)) == BookIDs(users)
    ensures UniqueIDs(users) ==> UniqueIDs(WithDataset(users, id, d))
  {
    if users != [] {
      var i := FindDataset(users[0].datasets, id);
      if i >= 0 {
        IDsAfterReplace(users[0].datasets, i, d);
        assert WithDataset(users, id, d)[1..] == users[1..];
      } else {
        assert WithDataset(users, id, d)[1..] == WithDataset(users[1..], id, d);
        WithDatasetKeepsIDs(users[1..], id, d);
      }
    }
  }

  // ---- infos after one dataset log is replaced ----

  lemma {:induction false} UserInfosWithin(profileID: string, datasets: seq<DatasetLog>)
    requires UserInfos(profileID, datasets).Some?
    ensures forall i :: i in UserInfos(profileID, datasets).value ==> i.initID in IDs(datasets)
  {
    if datasets != [] {
      UserInfosWithin(profileID, datasets[1..]);
      assert IDs(datasets) == {datasets[0].id} + IDs(datasets[1..]) by {
        assert datasets == [datasets[0]] + datasets[1..];
      }
    }
  }

  lemma {:induction false} BookInfosWithin(users: seq<UserLog>)
    requires BookInfos(users).Some?
    ensures forall i :: i in BookInfos(users).value ==> i.initID in BookIDs(users)
  {
    if users != [] {
      if users[0].ops != [] { UserInfosWithin(users[0].ops[0].authorID, users[0].datasets); }
      BookInfosWithin(users[1..]);
    }
  }

  lemma {:induction false} ReworkSame<T>(s: seq<T>, f: T -> Option<T>)
    requires forall x :: x in s ==> f(x) == Some(x)
    ensures Rework(s, f) == s
  {
    if s != [] {
      var rest, x := s[..|s| - 1], s[|s| - 1];
      assert s == rest + [x];
      assert x in s && Kept(f(x)) == [x];
      ReworkSame(rest, f);
    }
  }

  /** g says what becomes of the info of dataset id when its log d becomes d', and leaves the infos of
    * all other datasets alone. */
  ghost predicate Describes(g: EntryInfo -> Option<EntryInfo>, id: string, d: DatasetLog, d': DatasetLog) {
    && (forall i: EntryInfo :: i.initID != id ==> g(i) == Some(i))
    && (forall p: string :: DatasetInfos(p, d).Some? ==> DatasetInfos(p, d') == Some(Rework(DatasetInfos(p, d).value, g)))
  }

  lemma OthersUntouched(profileID: string, datasets: seq<DatasetLog>, others: seq<EntryInfo>, g: EntryInfo -> Option<EntryInfo>)
    requires datasets != [] && DistinctIDs(datasets) && UserInfos(profileID, datasets[1..]) == Some(others)
    requires forall i: EntryInfo :: i.initID != datasets[0].id ==> g(i) == Some(i)
    ensures Rework(others, g) == others
  {
    var rest := datasets[1..];
    UserInfosWithin(profileID, rest);
    forall x | x in others ensures g(x) == Some(x) {
      assert x.initID in IDs(rest);
      var d :| d in rest && d.id == x.initID;
      var k :| 0 <= k < |rest| && rest[k] == d;
      assert datasets[k + 1].id != datasets[0].id;
    }
    ReworkSame(others, g);
  }

  lemma {:induction false} UserInfosAfter(profileID: string, datasets: seq<DatasetLog>, id: string, d': DatasetLog,
                                          g: EntryInfo -> Option<EntryInfo>)
    requires DistinctIDs(datasets) && FindDataset(datasets, id) >= 0
    requires Describes(g, id, datasets[FindDataset(datasets, id)], d')
    requires UserInfos(profileID, datasets).Some?
    ensures UserInfos(profileID, datasets[FindDataset(datasets, id) := d']) == Some(Rework(UserInfos(profileID, datasets).value, g))
  {
    var i, rest := FindDataset(datasets, id), datasets[1..];
    var first, others := DatasetInfos(profileID, datasets[0]).value, UserInfos(profileID, rest).value;
    ReworkConcat(first, others, g);
    if i == 0 {
      assert datasets[0 := d'][1..] == rest;
      OthersUntouched(profileID, datasets, others, g);
    } else {
      assert datasets[i := d'][1..] == rest[i - 1 := d'];
      ReworkSame(first, g);
      UserInfosAfter(profileID, rest, id, d', g);
    }
  }

  lemma {:induction false} BookInfosAfter(users: seq<UserLog>, id: string, d': DatasetLog, g: EntryInfo -> Option<EntryInfo>)
    requires UniqueIDs(users) && DatasetOf(users, id).Some? && d'.id == id
    requires Describes(g, id, DatasetOf(users, id).value, d')
    requires BookInfos(users).Some?
    ensures BookInfos(WithDataset(users, id, d')) == Some(Rework(BookInfos(users).value, g))
  {
    var u, rest, i := users[0], users[1..], FindDataset(users[0].datasets, id);
    var first, others := UserInfosOf(u).value, BookInfos(rest).value;
    ReworkConcat(first, others, g);
    if i >= 0 {
      assert WithDataset(users, id, d')[1..] == rest;
      if u.ops != [] { UserInfosAfter(u.ops[0].authorID, u.datasets, id, d', g); }
      BookInfosWithin(rest);
      assert id in IDs(u.datasets);
      ReworkSame(others, g);
    } else {
      assert WithDataset(users, id, d')[1..] == WithDataset(rest, id, d');
      if u.ops != [] { UserInfosWithin(u.ops[0].authorID, u.datasets); }
      assert id !in IDs(u.datasets);
      ReworkSame(first, g);
      BookInfosAfter(rest, id, d', g);
    }
  }

  // ---- what a save and a delete do to a rebuild ----

  predicate NoRemoves(ops: seq<Op>) { forall op | op in ops :: op.typ != Remove }

  /** What removals take off the index: each removal op itself and the refs it drops. */
  function Lost(ops: seq<Op>): int {
    if ops == [] then 0
    else Lost(ops[..|ops| - 1]) + if ops[|ops| - 1].typ == Remove then 1 + ops[|ops| - 1].size else 0
  }

  lemma {:induction false} RefStackLength(ops: seq<Op>)
    requires RefStack(ops).Some?
    ensures |RefStack(ops).value| == |ops| - Lost(ops)
    ensures Lost(ops) >= 0 && (Lost(ops) == 0 <==> NoRemoves(ops))
  {
    if ops != [] {
      var rest, op := ops[..|ops| - 1], ops[|ops| - 1];
      RefStackLength(rest);
      assert ops == rest + [op];
      assert NoRemoves(ops) <==> NoRemoves(rest) && op.typ != Remove;
    }
  }

  /** Ops that are no removals push their refs. */
  lemma {:induction false} RefStackAppend(ops: seq<Op>, more: seq<Op>)
    requires RefStack(ops).Some? && NoRemoves(more)
    ensures RefStack(ops + more).Some? && Lost(ops + more) == Lost(ops)
    ensures more != [] ==> IndexAndRef(ops + more) == Some((|ops| + |more| - 1 - Lost(ops), more[|more| - 1].ref))
  {
    if more == [] {
      assert ops + more == ops;
    } else {
      var rest, op := more[..|more| - 1], more[|more| - 1];
      assert NoRemoves(rest) && op.typ != Remove by { assert op in more; }
      RefStackAppend(ops, rest);
      RefStackPush(ops + rest, op);
      assert ops + more == ops + rest + [op];
    }
  }

  lemma RefStackPush(ops: seq<Op>, op: Op)
    requires RefStack(ops).Some? && op.typ != Remove
    ensures RefStack(ops + [op]).Some? && Lost(ops + [op]) == Lost(ops)
    ensures IndexAndRef(ops + [op]) == Some((|ops| - Lost(ops), op.ref))
  {
    RefStackLength(ops);
    RefPushed(ops, op, ops + [op]);
  }

  lemma RefPushed(ops: seq<Op>, op: Op, more: seq<Op>)
    requires RefStack(ops).Some? && op.typ != Remove && more == ops + [op]
    ensures RefStack(more) == Some(RefStack(ops).value + [op.ref]) && Lost(more) == Lost(ops)
  {
    assert more[..|more| - 1] == ops && more[|more| - 1] == op;
  }

  lemma RefStackAfterSave(ops: seq<Op>, ds: Version, rs: Option<RunState>)
    requires RefStack(ops).Some? && Accepted(Save(ds, rs))
    ensures var ops' := ops + WriteOps(Save(ds, rs));
            && IndexAndRef(ops') == Some((|ops'| - 1 - Lost(ops'), ds.path))
            && Lost(ops') == Lost(ops)
  {
    SavedOps(ds, rs);
    RefStackAppend(ops, WriteOps(Save(ds, rs)));
  }

  lemma SavedOps(ds: Version, rs: Option<RunState>)
    requires Accepted(Save(ds, rs))
    ensures var more := WriteOps(Save(ds, rs)); more != [] && NoRemoves(more) && more[|more| - 1].ref == ds.path
  {
    assert SaveOp(ds).typ == Init && SaveOp(ds).ref == ds.path;
    if rs.Some? { assert RunOp(rs.value).typ == Init; }
  }

  function SavedInfo(id: string, top: int, path: string): EntryInfo -> Option<EntryInfo> {
    (i: EntryInfo) => Some(if i.initID == id then i.(path := path, topIndex := top, cursorIndex := top) else i)
  }

  function SavedCore(id: string, top: int, path: string): Core -> Option<Core> {
    (c: Core) => Some(if c.initID == id then c.(headRef := path, topIndex := top, cursorIndex := top) else c)
  }

  function DroppedInfo(id: string): EntryInfo -> Option<EntryInfo> {
    (i: EntryInfo) => if i.initID == id then None else Some(i)
  }

  function DroppedCore(id: string): Core -> Option<Core> {
    (c: Core) => if c.initID == id then None else Some(c)
  }

  lemma SavedIndex(ops: seq<Op>, ops': seq<Op>, ds: Version, rs: Option<RunState>, top: int)
    requires Accepted(Save(ds, rs)) && ops' == ops + WriteOps(Save(ds, rs)) && top == |ops'| - 1 - Lost(ops')
    ensures IndexAndRef(ops).Some? ==> IndexAndRef(ops') == Some((top, ds.path))
  {
    if RefStack(ops).Some? { RefStackAfterSave(ops, ds, rs); }
  }

  lemma MovedDescribes(d: DatasetLog, d': DatasetLog, ops: seq<Op>, ops': seq<Op>, top: int, path: string)
    requires d.branches == [ops] && d' == d.(branches := [ops'])
    requires IndexAndRef(ops).Some? ==> IndexAndRef(ops') == Some((top, path))
    ensures Describes(SavedInfo(d.id, top, path), d.id, d, d')
  {
    var g := SavedInfo(d.id, top, path);
    forall p: string | DatasetInfos(p, d).Some?
      ensures DatasetInfos(p, d') == Some(Rework(DatasetInfos(p, d).value, g))
    {
      if Listed(d.ops) { InfoMoves(p, d, d', top, path); }
    }
  }

  lemma InfoMoves(p: string, d: DatasetLog, d': DatasetLog, top: int, path: string)
    requires Listed(d.ops) && |d.branches| == |d'.branches| == 1 && d' == d.(branches := d'.branches)
    requires IndexAndRef(d.branches[0]).Some? && IndexAndRef(d'.branches[0]) == Some((top, path))
    ensures DatasetInfos(p, d).Some? && DatasetInfos(p, d') == Some(Rework(DatasetInfos(p, d).value, SavedInfo(d.id, top, path)))
  {
    ReworkOne(DatasetInfos(p, d).value[0], SavedInfo(d.id, top, path));
  }

  lemma DeleteDescribes(d: DatasetLog, timestamp: int)
    ensures Describes(DroppedInfo(d.id), d.id, d, d.(ops := d.ops + [DatasetRemoveOp(timestamp)]))
  {
    var d', g := d.(ops := d.ops + [DatasetRemoveOp(timestamp)]), DroppedInfo(d.id);
    assert d'.ops[|d.ops|] == DatasetRemoveOp(timestamp);
    assert !Listed(d'.ops);
    forall p: string | DatasetInfos(p, d).Some?
      ensures DatasetInfos(p, d') == Some(Rework(DatasetInfos(p, d).value, g))
    {
      if DatasetInfos(p, d).value != [] { ReworkOne(DatasetInfos(p, d).value[0], g); }
    }
  }

  // ---- entries, infos and cores are reworked alike ----

  /** c does to the core of an info what g does to the info. */
  ghost predicate Follows(g: EntryInfo -> Option<EntryInfo>, c: Core -> Option<Core>) {
    forall i :: g(i).Some? == c(CoreOfInfo(i)).Some? && (g(i).Some? ==> CoreOfInfo(g(i).value) == c(CoreOfInfo(i)).value)
  }

  lemma SavedFollows(id: string, top: int, path: string)
    ensures Follows(SavedInfo(id, top, path), SavedCore(id, ToInt32(top), path))
  {
  }

  lemma DroppedFollows(id: string)
    ensures Follows(DroppedInfo(id), DroppedCore(id))
  {
  }

  lemma {:induction false} InfoCoresRework(infos: seq<EntryInfo>, g: EntryInfo -> Option<EntryInfo>, c: Core -> Option<Core>)
    requires Follows(g, c)
    ensures InfoCores(Rework(infos, g)) == Rework(InfoCores(infos), c)
  {
    if infos != [] {
      var rest, last := infos[..|infos| - 1], infos[|infos| - 1];
      InfoCoresRework(rest, g, c);
      assert InfoCores(infos)[..|infos| - 1] == InfoCores(rest);
      assert InfoCores(Kept(g(last))) == Kept(c(CoreOfInfo(last)));
      InfoCoresConcat(Rework(rest, g), Kept(g(last)));
    }
  }

  lemma InfoCoresConcat(a: seq<EntryInfo>, b: seq<EntryInfo>)
    ensures InfoCores(a + b) == InfoCores(a) + InfoCores(b)
  {
  }

  lemma {:induction false} CoresRework(refs: seq<Entry>, f: Entry -> Option<Entry>, c: Core -> Option<Core>)
    requires forall e :: f(e).Some? == c(CoreOf(e)).Some?
    requires forall e :: f(e).Some? ==> CoreOf(f(e).value) == c(CoreOf(e)).value
    ensures Cores(Rework(refs, f)) == Rework(Cores(refs), c)
  {
    if refs != [] {
      CoresRework(refs[..|refs| - 1], f, c);
      assert Cores(refs)[..|refs| - 1] == Cores(refs[..|refs| - 1]);
    }
  }

  // ---- the cache stays a rebuild ----

  /** The logbook and the cache that listens to it. */
  datatype Pair = Pair(users: seq<UserLog>, root: Root)

  ghost predicate InSync(p: Pair) { UniqueIDs(p.users) && IsRebuild(p.root, p.users) }

  function HandledAll(root: Root, events: seq<Event>, defaultUsername: string): Root {
    if events == [] then root
    else Handled(HandledAll(root, events[..|events| - 1], defaultUsername), events[|events| - 1], defaultUsername)
  }

  lemma HandleOne(root: Root, ev: Event, defaultUsername: string)
    ensures HandledAll(root, [ev], defaultUsername) == Handled(root, ev, defaultUsername)
  {
    assert [ev][..0] == [];
  }

  lemma MovedCore(e: Entry, act: DsChange, top: int)
    requires ToInt32(act.topIndex) == top != 0
    ensures CoreOf(MovedCursor(e, act)) == CoreOf(e).(topIndex := top, cursorIndex := top, headRef := act.headRef)
  {
  }

  lemma CacheAfterCommit(root: Root, act: DsChange, defaultUsername: string, top: int)
    requires ToInt32(act.topIndex) == top != 0 && Sorted(root)
    ensures Caches(HandledAll(root, [CommitChange(act)], defaultUsername),
                   Rework(Cores(root.refs), SavedCore(act.initID, top, act.headRef)))
  {
    var ev := CommitChange(act);
    var f, c := UpdateOf(ev, defaultUsername), SavedCore(act.initID, top, act.headRef);
    HandleOne(root, ev, defaultUsername);
    UpdatesKeepOrder(root, ev, defaultUsername);
    forall e ensures f(e).Some? && c(CoreOf(e)).Some? && CoreOf(f(e).value) == c(CoreOf(e)).value {
      EffectOfUpdate(e, ev, defaultUsername);
      MovedCore(e, act, top);
    }
    CoresRework(root.refs, f, c);
  }

  lemma CacheAfterDelete(root: Root, act: DsChange, defaultUsername: string)
    requires Sorted(root)
    ensures Caches(HandledAll(root, [DeleteAll(act)], defaultUsername), Rework(Cores(root.refs), DroppedCore(act.initID)))
  {
    var ev := DeleteAll(act);
    HandleOne(root, ev, defaultUsername);
    UpdatesKeepOrder(root, ev, defaultUsername);
    forall e ensures UpdateOf(ev, defaultUsername)(e) == Effect(e, ev, defaultUsername) {
      EffectOfUpdate(e, ev, defaultUsername);
    }
    CoresRework(root.refs, UpdateOf(ev, defaultUsername), DroppedCore(act.initID));
  }

  /** The book after a replaced dataset log, as a rebuild sees it. */
  lemma RebuildAfter(users: seq<UserLog>, d': DatasetLog, g: EntryInfo -> Option<EntryInfo>, c: Core -> Option<Core>)
    requires UniqueIDs(users) && DatasetOf(users, d'.id).Some? && BookInfos(users).Some?
    requires Describes(g, d'.id, DatasetOf(users, d'.id).value, d')
    requires Follows(g, c)
    ensures RebuildsTo(WithDataset(users, d'.id, d'), Rework(RebuiltCores(users), c))
  {
    BookInfosAfter(users, d'.id, d', g);
    WithDatasetKeepsIDs(users, d'.id, d');
    InfoCoresRework(BookInfos(users).value, g, c);
  }

  /** The branch after a save. */
  function OpsAfter(users: seq<UserLog>, authorID: string, id: string, ds: Version, rs: Option<RunState>): seq<Op>
    requires BranchOf(users, authorID, id).Ok?
  {
    BranchOf(users, authorID, id).value + WriteOps(Save(ds, rs))
  }

  /** The index a rebuild gives a branch. */
  function RebuiltTop(ops: seq<Op>): int { ToInt32(|ops| - 1 - Lost(ops)) }

  function RebuiltCores(users: seq<UserLog>): seq<Core>
    requires BookInfos(users).Some?
  {
    InfoCores(BookInfos(users).value)
  }

  /** A rebuild after a save changes one dataset, to the new head and the index of the newest ref
    * that remains. */
  lemma BookAfterSave(users: seq<UserLog>, authorID: string, id: string, ds: Version, rs: Option<RunState>,
                      users': seq<UserLog>, left: int, c: Core -> Option<Core>)
    requires UniqueIDs(users) && BookInfos(users).Some?
    requires BranchOf(users, authorID, id).Ok? && Accepted(Save(ds, rs))
    requires users' == SaveOutcome(users, authorID, id, ds, rs).users
    requires left == RebuiltTop(OpsAfter(users, authorID, id, ds, rs)) && c == SavedCore(id, left, ds.path)
    ensures RebuildsTo(users', Rework(RebuiltCores(users), c))
  {
    var d := SavedDataset(users, authorID, id, ds, rs);
    var ops' := OpsAfter(users, authorID, id, ds, rs);
    ReplacedBranch(users, d, BranchOf(users, authorID, id).value, ops', ds, rs, |ops'| - 1 - Lost(ops'), left, c);
  }

  /** A save replaces the branch of one dataset. */
  lemma SavedDataset(users: seq<UserLog>, authorID: string, id: string, ds: Version, rs: Option<RunState>) returns (d: DatasetLog)
    requires BranchOf(users, authorID, id).Ok? && Accepted(Save(ds, rs))
    ensures d.id == id && DatasetOf(users, id) == Some(d) && d.branches == [BranchOf(users, authorID, id).value]
    ensures SaveOutcome(users, authorID, id, ds, rs).users ==
            WithDataset(users, id, d.(branches := [OpsAfter(users, authorID, id, ds, rs)]))
  {
    d := DatasetOf(users, id).value;
    DatasetHasItsID(users, id);
    assert d.branches == [d.branches[0]];
  }

  lemma ReplacedBranch(users: seq<UserLog>, d: DatasetLog, ops: seq<Op>, ops': seq<Op>, ds: Version, rs: Option<RunState>,
                       top: int, left: int, c: Core -> Option<Core>)
    requires UniqueIDs(users) && BookInfos(users).Some? && DatasetOf(users, d.id) == Some(d)
    requires d.branches == [ops] && Accepted(Save(ds, rs)) && ops' == ops + WriteOps(Save(ds, rs))
    requires top == |ops'| - 1 - Lost(ops') && left == ToInt32(top) && c == SavedCore(d.id, left, ds.path)
    ensures RebuildsTo(WithDataset(users, d.id, d.(branches := [ops'])), Rework(RebuiltCores(users), c))
  {
    var d' := d.(branches := [ops']);
    SavedIndex(ops, ops', ds, rs, top);
    MovedDescribes(d, d', ops, ops', top, ds.path);
    SavedFollows(d.id, top, ds.path);
    RebuildAfter(users, d', SavedInfo(d.id, top, ds.path), c);
  }

  /** The cache after the event of a save changes the same dataset, to the same head, but to the
    * index of the newest op. */
  lemma CacheAfterSave(root: Root, o: Outcome, defaultUsername: string, id: string, ds: Version, top: int,
                       root': Root, c: Core -> Option<Core>)
    requires Sorted(root) && 0 < top < 0x8000_0000
    requires o.published == [CommitChange(ChangeOf(id, top, ds.path, Some(InfoOfVersion(ds))))]
    requires root' == HandledAll(root, o.published, defaultUsername) && c == SavedCore(id, top, ds.path)
    ensures Caches(root', Rework(Cores(root.refs), c))
  {
    CacheAfterCommit(root, ChangeOf(id, top, ds.path, Some(InfoOfVersion(ds))), defaultUsername, top);
  }

  /** Both changes at once: p' is the pair after the save, `event` what the event makes of a core, with
    * index `top`, and `rebuild` what a rebuild makes of it, with index `left`. */
  lemma SaveMovesBoth(p: Pair, authorID: string, defaultUsername: string, id: string, ds: Version, rs: Option<RunState>,
                      p': Pair, top: int, event: Core -> Option<Core>, left: int, rebuild: Core -> Option<Core>)
    requires InSync(p) && BranchOf(p.users, authorID, id).Ok? && Accepted(Save(ds, rs))
    requires top == |OpsAfter(p.users, authorID, id, ds, rs)| - 1 < 0x8000_0000
    requires left == RebuiltTop(OpsAfter(p.users, authorID, id, ds, rs))
    requires p' == DoAct(p, SaveVersion(id, ds, rs), authorID, defaultUsername)
    requires event == SavedCore(id, top, ds.path) && rebuild == SavedCore(id, left, ds.path)
    ensures InSync(p') <==>
            multiset(Rework(Cores(p.root.refs), event)) == multiset(Rework(RebuiltCores(p.users), rebuild))
  {
    BookAfterSave(p.users, authorID, id, ds, rs, p'.users, left, rebuild);
    CacheAfterSave(p.root, SaveOutcome(p.users, authorID, id, ds, rs), defaultUsername, id, ds, top, p'.root, event);
    SyncedCores(p', Rework(Cores(p.root.refs), event), Rework(RebuiltCores(p.users), rebuild));
  }

  /** A sorted cache of these cores. */
  ghost predicate Caches(root: Root, cores: seq<Core>) { Sorted(root) && Cores(root.refs) == cores }

  /** A book with unique IDs that rebuilds to these cores. */
  ghost predicate RebuildsTo(users: seq<UserLog>, cores: seq<Core>) {
    UniqueIDs(users) && BookInfos(users).Some? && RebuiltCores(users) == cores
  }

  lemma SyncedCores(p: Pair, cached: seq<Core>, rebuilt: seq<Core>)
    requires Caches(p.root, cached) && RebuildsTo(p.users, rebuilt)
    ensures InSync(p) <==> multiset(cached) == multiset(rebuilt)
  {
  }

  /** A save on a dataset the cache lists keeps the cache a rebuild exactly when the branch holds no
    * removal or unpublish op: the event counts ops, the rebuild counts the refs that remain. */
  lemma SaveKeepsSyncIff(p: Pair, authorID: string, defaultUsername: string, id: string, ds: Version, rs: Option<RunState>)
    requires InSync(p) && BranchOf(p.users, authorID, id).Ok? && Accepted(Save(ds, rs))
    requires |OpsAfter(p.users, authorID, id, ds, rs)| <= 0x8000_0000
    requires exists e :: e in p.root.refs && e.initID == id
    ensures InSync(DoAct(p, SaveVersion(id, ds, rs), authorID, defaultUsername))
            <==> NoRemoves(BranchOf(p.users, authorID, id).value)
  {
    if NoRemoves(BranchOf(p.users, authorID, id).value) {
      SaveKeepsSync(p, authorID, defaultUsername, id, ds, rs);
    } else {
      var p' := DoAct(p, SaveVersion(id, ds, rs), authorID, defaultUsername);
      var ops' := OpsAfter(p.users, authorID, id, ds, rs);
      var top, left := |ops'| - 1, RebuiltTop(ops');
      var event, rebuild := SavedCore(id, top, ds.path), SavedCore(id, left, ds.path);
      SaveMovesBoth(p, authorID, defaultUsername, id, ds, rs, p', top, event, left, rebuild);
      var j := ListedCore(p, id);
      IndicesDiffer(p.users, authorID, id, ds, rs, j);
      OtherIndexShows(Cores(p.root.refs), RebuiltCores(p.users), id, top, left, ds.path, j, event, rebuild);
    }
  }

  lemma SameIndex(a: seq<Core>, b: seq<Core>, id: string, s: int, t: int, path: string,
                  event: Core -> Option<Core>, rebuild: Core -> Option<Core>)
    requires multiset(a) == multiset(b) && s == t
    requires event == SavedCore(id, s, path) && rebuild == SavedCore(id, t, path)
    ensures multiset(Rework(a, event)) == multiset(Rework(b, rebuild))
  {
    ReworkMultiset(a, b, event);
  }

  lemma IndicesSame(users: seq<UserLog>, authorID: string, id: string, ds: Version, rs: Option<RunState>)
    requires BranchOf(users, authorID, id).Ok? && NoRemoves(BranchOf(users, authorID, id).value)
    requires |OpsAfter(users, authorID, id, ds, rs)| <= 0x8000_0000
    ensures RebuiltTop(OpsAfter(users, authorID, id, ds, rs)) == |OpsAfter(users, authorID, id, ds, rs)| - 1
  {
    NothingLost(OpsAfter(users, authorID, id, ds, rs));
  }

  lemma ListedCore(p: Pair, id: string) returns (j: nat)
    requires InSync(p) && exists e :: e in p.root.refs && e.initID == id
    ensures j < |RebuiltCores(p.users)| && RebuiltCores(p.users)[j].initID == id
  {
    var cores, rebuilt := Cores(p.root.refs), RebuiltCores(p.users);
    var k :| 0 <= k < |p.root.refs| && p.root.refs[k].initID == id;
    assert cores[k] in multiset(cores);
    assert cores[k] in multiset(rebuilt);
    j :| 0 <= j < |rebuilt| && rebuilt[j] == cores[k];
  }

  lemma IndicesDiffer(users: seq<UserLog>, authorID: string, id: string, ds: Version, rs: Option<RunState>, j: nat)
    requires UniqueIDs(users) && BookInfos(users).Some? && j < |RebuiltCores(users)| && RebuiltCores(users)[j].initID == id
    requires BranchOf(users, authorID, id).Ok? && Accepted(Save(ds, rs))
    requires |OpsAfter(users, authorID, id, ds, rs)| <= 0x8000_0000
    requires !NoRemoves(BranchOf(users, authorID, id).value)
    ensures RebuiltTop(OpsAfter(users, authorID, id, ds, rs)) != |OpsAfter(users, authorID, id, ds, rs)| - 1
  {
    var ops := BranchOf(users, authorID, id).value;
    InfoReplays(users, BookInfos(users).value[j]);
    RefStackAfterSave(ops, ds, rs);
    RefStackLength(ops);
  }

  /** Giving one dataset different indices in two lists leaves the lists with different elements. */
  lemma OtherIndexShows(a: seq<Core>, b: seq<Core>, id: string, s: int, t: int, path: string, j: nat,
                        event: Core -> Option<Core>, rebuild: Core -> Option<Core>)
    requires j < |b| && b[j].initID == id && s != t
    requires event == SavedCore(id, s, path) && rebuild == SavedCore(id, t, path)
    ensures multiset(Rework(a, event)) != multiset(Rework(b, rebuild))
  {
    var a', b' := Rework(a, event), Rework(b, rebuild);
    ReworkInPlace(a, event);
    ReworkInPlace(b, rebuild);
    assert b'[j] in multiset(b');
    forall m | 0 <= m < |a'| ensures a'[m] != b'[j] {
    }
    assert b'[j] !in a';
  }

  lemma SaveKeepsSync(p: Pair, authorID: string, defaultUsername: string, id: string, ds: Version, rs: Option<RunState>)
    requires InSync(p) && BranchOf(p.users, authorID, id).Ok? && Accepted(Save(ds, rs))
    requires NoRemoves(BranchOf(p.users, authorID, id).value)
    requires |OpsAfter(p.users, authorID, id, ds, rs)| <= 0x8000_0000
    ensures InSync(DoAct(p, SaveVersion(id, ds, rs), authorID, defaultUsername))
  {
    var p' := DoAct(p, SaveVersion(id, ds, rs), authorID, defaultUsername);
    var ops' := OpsAfter(p.users, authorID, id, ds, rs);
    var top, left := |ops'| - 1, RebuiltTop(ops');
    var event, rebuild := SavedCore(id, top, ds.path), SavedCore(id, left, ds.path);
    SaveMovesBoth(p, authorID, defaultUsername, id, ds, rs, p', top, event, left, rebuild);
    IndicesSame(p.users, authorID, id, ds, rs);
    SameIndex(Cores(p.root.refs), RebuiltCores(p.users), id, top, left, ds.path, event, rebuild);
  }

  lemma {:induction false} NothingLost(ops: seq<Op>)
    requires NoRemoves(ops)
    ensures Lost(ops) == 0
  {
    if ops != [] {
      assert ops[|ops| - 1] in ops;
      NothingLost(ops[..|ops| - 1]);
    }
  }

  /** The log behind an info of a rebuild replays. */
  lemma {:induction false} UserInfoReplays(profileID: string, datasets: seq<DatasetLog>, i: EntryInfo)
    requires UserInfos(profileID, datasets).Some? && i in UserInfos(profileID, datasets).value && DistinctIDs(datasets)
    ensures var k := FindDataset(datasets, i.initID);
            k >= 0 && |datasets[k].branches| == 1 && RefStack(datasets[k].branches[0]).Some?
  {
    var first := DatasetInfos(profileID, datasets[0]).value;
    if i !in first {
      UserInfoReplays(profileID, datasets[1..], i);
      var k := FindDataset(datasets[1..], i.initID);
      assert datasets[k + 1].id == i.initID;
    }
  }

  lemma {:induction false} InfoReplays(users: seq<UserLog>, i: EntryInfo)
    requires BookInfos(users).Some? && i in BookInfos(users).value && UniqueIDs(users)
    ensures DatasetOf(users, i.initID).Some?
    ensures var d := DatasetOf(users, i.initID).value; |d.branches| == 1 && RefStack(d.branches[0]).Some?
  {
    var u := users[0];
    if i in UserInfosOf(u).value {
      UserInfoReplays(u.ops[0].authorID, u.datasets, i);
    } else {
      BookInfosWithin(users[1..]);
      assert i.initID !in IDs(u.datasets);
      assert forall d :: d in u.datasets ==> d.id in IDs(u.datasets);
      InfoReplays(users[1..], i);
    }
  }

  // ---- whole runs ----

  datatype CacheAct =
    | SaveVersion(id: string, ds: Version, rs: Option<RunState>)
    | DeleteDataset(id: string, timestamp: int)

  function OutcomeOf(users: seq<UserLog>, authorID: string, act: CacheAct): Outcome {
    match act
    case SaveVersion(id, ds, rs) => SaveOutcome(users, authorID, id, ds, rs)
    case DeleteDataset(id, timestamp) => DatasetDeleteOutcome(users, authorID, id, timestamp)
  }

  function DoAct(p: Pair, act: CacheAct, authorID: string, defaultUsername: string): Pair {
    var o := OutcomeOf(p.users, authorID, act);
    Pair(o.users, HandledAll(p.root, o.published, defaultUsername))
  }

  function DoActs(p: Pair, acts: seq<CacheAct>, authorID: string, defaultUsername: string): Pair {
    if acts == [] then p
    else DoAct(DoActs(p, acts[..|acts| - 1], authorID, defaultUsername), acts[|acts| - 1], authorID, defaultUsername)
  }

  /** A save, if the book takes it, is on a branch without removals whose length fits an int32. */
  predicate Plain(p: Pair, act: CacheAct, authorID: string) {
    act.SaveVersion? && BranchOf(p.users, authorID, act.id).Ok? && Accepted(Save(act.ds, act.rs)) ==>
      && NoRemoves(BranchOf(p.users, authorID, act.id).value)
      && |OpsAfter(p.users, authorID, act.id, act.ds, act.rs)| <= 0x8000_0000
  }

  predicate AllPlain(p: Pair, acts: seq<CacheAct>, authorID: string, defaultUsername: string) {
    acts == []
    || (AllPlain(p, acts[..|acts| - 1], authorID, defaultUsername)
        && Plain(DoActs(p, acts[..|acts| - 1], authorID, defaultUsername), acts[|acts| - 1], authorID))
  }

  lemma DeleteKeepsSync(p: Pair, authorID: string, defaultUsername: string, id: string, timestamp: int)
    requires InSync(p)
    ensures InSync(DoAct(p, DeleteDataset(id, timestamp), authorID, defaultUsername))
  {
    var p' := DoAct(p, DeleteDataset(id, timestamp), authorID, defaultUsername);
    if DatasetDeleteOutcome(p.users, authorID, id, timestamp).err.None? {
      DeleteMovesBoth(p, authorID, defaultUsername, id, timestamp, p', DroppedCore(id));
      ReworkMultiset(Cores(p.root.refs), RebuiltCores(p.users), DroppedCore(id));
    }
  }

  lemma DeleteMovesBoth(p: Pair, authorID: string, defaultUsername: string, id: string, timestamp: int,
                        p': Pair, c: Core -> Option<Core>)
    requires InSync(p) && DatasetDeleteOutcome(p.users, authorID, id, timestamp).err.None?
    requires p' == DoAct(p, DeleteDataset(id, timestamp), authorID, defaultUsername) && c == DroppedCore(id)
    ensures InSync(p') <==> multiset(Rework(Cores(p.root.refs), c)) == multiset(Rework(RebuiltCores(p.users), c))
  {
    DroppedDataset(p.users, authorID, id, timestamp, p'.users, c);
    CacheAfterDelete(p.root, ChangeOf(id, 0, "", None), defaultUsername);
    SyncedCores(p', Rework(Cores(p.root.refs), c), Rework(RebuiltCores(p.users), c));
  }

  lemma DroppedDataset(users: seq<UserLog>, authorID: string, id: string, timestamp: int, users': seq<UserLog>,
                       c: Core -> Option<Core>)
    requires UniqueIDs(users) && BookInfos(users).Some? && c == DroppedCore(id)
    requires DatasetDeleteOutcome(users, authorID, id, timestamp).err.None?
    requires users' == DatasetDeleteOutcome(users, authorID, id, timestamp).users
    ensures RebuildsTo(users', Rework(RebuiltCores(users), c))
  {
    var d := DatasetOf(users, id).value;
    DatasetHasItsID(users, id);
    DeleteDescribes(d, timestamp);
    DroppedFollows(id);
    RebuildAfter(users, d.(ops := d.ops + [DatasetRemoveOp(timestamp)]), DroppedInfo(id), c);
  }

  /** Over every run of saves, with or without their transform runs, on branches without removals, and
    * of whole-dataset deletes, the cache updated by events stays a rebuild of the logbook. */
  lemma {:induction false} RunsStayInSync(p: Pair, acts: seq<CacheAct>, authorID: string, defaultUsername: string)
    requires InSync(p) && AllPlain(p, acts, authorID, defaultUsername)
    ensures InSync(DoActs(p, acts, authorID, defaultUsername))
  {
    if acts != [] {
      var before, act := DoActs(p, acts[..|acts| - 1], authorID, defaultUsername), acts[|acts| - 1];
      RunsStayInSync(p, acts[..|acts| - 1], authorID, defaultUsername);
      match act {
        case DeleteDataset(id, timestamp) => DeleteKeepsSync(before, authorID, defaultUsername, id, timestamp);
        case SaveVersion(id, ds, rs) =>
          if BranchOf(before.users, authorID, id).Ok? && Accepted(Save(ds, rs)) {
            SaveKeepsSync(before, authorID, defaultUsername, id, ds, rs);
          }
      }
    }
  }

  /** A cache built from a book starts such a run. */
  method BuildFromLogbook(pairs: seq<UserAssoc>, users: seq<UserLog>, details: string -> Details) returns (p: Option<Pair>)
    requires UniqueIDs(users)
    ensures p.Some? <==> BookInfos(users).Some?
    ensures p.Some? ==> InSync(p.value) && p.value.users == users && p.value.root.users == pairs
  {
    var root := BuildDscache(pairs, users, details);
    p := match root case None => None case Some(r) => Some(Pair(users, r));
  }

  /** So after such a run the entries are those of any new rebuild, in the same order, where no two
    * datasets share a human-readable reference. */
  lemma RunsMatchRebuild(p: Pair, acts: seq<CacheAct>, authorID: string, defaultUsername: string, rebuilt: Root)
    requires InSync(p) && AllPlain(p, acts, authorID, defaultUsername)
    requires var after := DoActs(p, acts, authorID, defaultUsername);
             IsRebuild(rebuilt, after.users) && rebuilt.users == after.root.users && DistinctKeys(rebuilt)
    ensures Cores(DoActs(p, acts, authorID, defaultUsername).root.refs) == Cores(rebuilt.refs)
  {
    RunsStayInSync(p, acts, authorID, defaultUsername);
    var after := DoActs(p, acts, authorID, defaultUsername);
    RebuildsAgree(rebuilt, after.root, after.users);
  }
}
