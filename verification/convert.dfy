/** Building a dscache from scratch out of the logbook (dscache/convert.go). */
module CacheConvert {
  import opened Prelude
  import opened OpLog
  import opened Logbook
  import opened CacheEntries

  /** One dataset as the logbook tells it. */
  datatype EntryInfo = EntryInfo(
    initID: string, profileID: string, name: string, path: string, topIndex: int, cursorIndex: int)

  /** What loading a version adds to its entry. */
  datatype Details = Details(
    metaTitle: string, themeList: string, bodySize: int, bodyRows: int, commitTime: int, numErrors: int)

  /** The part of an entry that comes from the logbook. */
  datatype Core = Core(
    initID: string, profileID: string, name: string, topIndex: int, cursorIndex: int, headRef: string)

  function CoreOf(e: Entry): Core {
    Core(e.initID, e.profileID, e.name, e.topIndex, e.cursorIndex, e.headRef)
  }

  function CoreOfInfo(i: EntryInfo): Core {
    Core(i.initID, i.profileID, i.name, ToInt32(i.topIndex), ToInt32(i.cursorIndex), i.path)
  }

  function Cores(refs: seq<Entry>): (cs: seq<Core>)
    ensures |cs| == |refs| && forall i :: 0 <= i < |refs| ==> cs[i] == CoreOf(refs[i])
  {
    seq(|refs|, i requires 0 <= i < |refs| => CoreOf(refs[i]))
  }

  function InfoCores(infos: seq<EntryInfo>): (cs: seq<Core>)
    ensures |cs| == |infos| && forall i :: 0 <= i < |infos| ==> cs[i] == CoreOfInfo(infos[i])
  {
    seq(|infos|, i requires 0 <= i < |infos| => CoreOfInfo(infos[i]))
  }

  // ---- the replay of one branch ----

  /** Every op that is not a removal pushes its ref, whatever its model; None where Go panics. */
  function RefStack(ops: seq<Op>): Option<seq<string>> {
    if ops == [] then Some([])
    else
      match RefStack(ops[..|ops| - 1])
      case None => None
      case Some(refs) =>
        var op := ops[|ops| - 1];
        if op.typ != Remove then Some(refs + [op.ref])
        else if 0 <= op.size <= |refs| then Some(refs[..|refs| - op.size])
        else None
  }

  /** The index and ref of the newest remaining ref; None where Go panics. */
  function IndexAndRef(ops: seq<Op>): Option<(int, string)> {
    match RefStack(ops)
    case None => None
    case Some(refs) => if refs == [] then None else Some((|refs| - 1, refs[|refs| - 1]))
  }

  method ConvertHistoryToIndexAndRef(ops: seq<Op>) returns (r: Option<(int, string)>)
    ensures r == IndexAndRef(ops)
  {
    var refs: seq<string> := [];
    for i := 0 to |ops|
      invariant RefStack(ops[..i]) == Some(refs)
    {
      var op := ops[i];
      assert ops[..i + 1][..i] == ops[..i];
      if op.typ == Remove {
        if !(0 <= op.size <= |refs|) {
          RefPanicIsFinal(ops, i + 1);
          return None;
        }
        refs := refs[..|refs| - op.size];
      } else {
        refs := refs + [op.ref];
      }
    }
    assert ops[..|ops|] == ops;
    if |refs| == 0 { return None; }
    var lastIndex := |refs| - 1;
    r := Some((lastIndex, refs[lastIndex]));
  }

  lemma {:induction false} RefPanicIsFinal(ops: seq<Op>, k: nat)
    requires k <= |ops| && RefStack(ops[..k]) == None
    ensures RefStack(ops) == None
    decreases |ops| - k
  {
    if k < |ops| {
      assert ops[..k + 1][..k] == ops[..k];
      RefPanicIsFinal(ops, k + 1);
    } else {
      assert ops[..k] == ops;
    }
  }

  // ---- one dataset, one user, the whole book ----

  /** A dataset is listed unless its log holds an op of another model or a removal. */
  predicate Listed(ops: seq<Op>) {
    forall op | op in ops :: op.model == DatasetModel && op.typ != Remove
  }

  /** No info for datasets that are not listed or have not one branch; None where Go panics. */
  function DatasetInfos(profileID: string, d: DatasetLog): Option<seq<EntryInfo>> {
    if !Listed(d.ops) || |d.branches| != 1 then Some([])
    else
      match IndexAndRef(d.branches[0])
      case None => None
      case Some(top) =>
        var name := if d.ops == [] then "" else d.ops[|d.ops| - 1].name;
        Some([EntryInfo(d.id, profileID, name, top.1, top.0, top.0)])
  }

  function UserInfos(profileID: string, datasets: seq<DatasetLog>): Option<seq<EntryInfo>> {
    if datasets == [] then Some([])
    else
      Join(DatasetInfos(profileID, datasets[0]), UserInfos(profileID, datasets[1..]))
  }

  /** One list of infos after another; None where either panics. */
  function Join(a: Option<seq<EntryInfo>>, b: Option<seq<EntryInfo>>): Option<seq<EntryInfo>> {
    match (a, b)
    case (Some(x), Some(y)) => Some(x + y)
    case _ => None
  }

  lemma JoinOnto(x: seq<EntryInfo>, a: Option<seq<EntryInfo>>, b: Option<seq<EntryInfo>>)
    ensures Join(Some(x), Join(a, b)) == Join(Join(Some(x), a), b)
    ensures Join(Some([]), b) == b
    ensures Join(Some(x), Some([])) == Some(x)
  {
    if a.Some? && b.Some? {
      assert x + (a.value + b.value) == (x + a.value) + b.value;
    }
    if b.Some? {
      assert [] + b.value == b.value;
    }
    assert x + [] == x;
  }

  function BookInfos(users: seq<UserLog>): Option<seq<EntryInfo>> {
    if users == [] then Some([])
    else
      Join(UserInfosOf(users[0]), BookInfos(users[1..]))
  }

  /** A user log without ops is passed over. */
  function UserInfosOf(u: UserLog): Option<seq<EntryInfo>> {
    if u.ops == [] then Some([]) else UserInfos(u.ops[0].authorID, u.datasets)
  }

  method ConvertDatasetHistoryToDsInfo(profileID: string, d: DatasetLog) returns (r: Option<seq<EntryInfo>>)
    ensures r == DatasetInfos(profileID, d)
  {
    var prettyName := "";
    for i := 0 to |d.ops|
      invariant forall k :: 0 <= k < i ==> d.ops[k].model == DatasetModel && d.ops[k].typ != Remove
      invariant prettyName == if i == 0 then "" else d.ops[i - 1].name
    {
      var op := d.ops[i];
      if op.model != DatasetModel { return Some([]); }
      prettyName := op.name;
      if op.typ == Remove { return Some([]); }
    }
    if |d.branches| != 1 { return Some([]); }
    var top := ConvertHistoryToIndexAndRef(d.branches[0]);
    if top.None? { return None; }
    r := Some([EntryInfo(d.id, profileID, prettyName, top.value.1, top.value.0, top.value.0)]);
  }

  method ConvertLogbookUserToDsInfoList(profileID: string, datasets: seq<DatasetLog>) returns (r: Option<seq<EntryInfo>>)
    ensures r == UserInfos(profileID, datasets)
  {
    var infoList := [];
    assert datasets[0..] == datasets;
    JoinOnto([], None, UserInfos(profileID, datasets));
    for i := 0 to |datasets|
      invariant UserInfos(profileID, datasets) == Join(Some(infoList), UserInfos(profileID, datasets[i..]))
    {
      assert datasets[i..][0] == datasets[i] && datasets[i..][1..] == datasets[i + 1..];
      JoinOnto(infoList, DatasetInfos(profileID, datasets[i]), UserInfos(profileID, datasets[i + 1..]));
      var info := ConvertDatasetHistoryToDsInfo(profileID, datasets[i]);
      if info.None? { return None; }
      infoList := infoList + info.value;
    }
    JoinOnto(infoList, None, None);
    r := Some(infoList);
  }

  method ConvertLogbook(users: seq<UserLog>) returns (r: Option<seq<EntryInfo>>)
    ensures r == BookInfos(users)
  {
    var allInfoList := [];
    assert users[0..] == users;
    JoinOnto([], None, BookInfos(users));
    for i := 0 to |users|
      invariant BookInfos(users) == Join(Some(allInfoList), BookInfos(users[i..]))
    {
      assert users[i..][0] == users[i] && users[i..][1..] == users[i + 1..];
      JoinOnto(allInfoList, UserInfosOf(users[i]), BookInfos(users[i + 1..]));
      if |users[i].ops| > 0 {
        var infoList := ConvertLogbookUserToDsInfoList(users[i].ops[0].authorID, users[i].datasets);
        if infoList.None? { return None; }
        allInfoList := allInfoList + infoList.value;
      }
    }
    JoinOnto(allInfoList, None, None);
    r := Some(allInfoList);
  }

  // ---- sorting and building ----

  function InfoKey(users: seq<UserAssoc>, i: EntryInfo): string { PrettyRef(users, i.profileID, i.name) }

  ghost predicate SortedInfos(users: seq<UserAssoc>, infos: seq<EntryInfo>) {
    forall i, j :: 0 <= i < j < |infos| ==> !StrLess(InfoKey(users, infos[j]), InfoKey(users, infos[i]))
  }

  /** Puts one more info in front of the first one whose key is greater. */
  method InsertInfo(users: seq<UserAssoc>, infos: seq<EntryInfo>, x: EntryInfo) returns (r: seq<EntryInfo>)
    requires SortedInfos(users, infos)
    ensures SortedInfos(users, r) && multiset(r) == multiset(infos) + multiset{x}
  {
    var p := 0;
    while p < |infos| && !StrLess(InfoKey(users, x), InfoKey(users, infos[p]))
      invariant 0 <= p <= |infos|
      invariant forall k :: 0 <= k < p ==> !StrLess(InfoKey(users, x), InfoKey(users, infos[k]))
    {
      p := p + 1;
    }
    r := infos[..p] + [x] + infos[p..];
    NoneLessAfter(users, infos, p, x);
    InsertedAt(users, infos, p, x, r);
  }

  /** From the first info with a greater key on, no key is less. */
  lemma NoneLessAfter(users: seq<UserAssoc>, infos: seq<EntryInfo>, p: nat, x: EntryInfo)
    requires SortedInfos(users, infos) && p <= |infos|
    requires p < |infos| ==> StrLess(InfoKey(users, x), InfoKey(users, infos[p]))
    ensures forall k :: p <= k < |infos| ==> !StrLess(InfoKey(users, infos[k]), InfoKey(users, x))
  {
    forall k | p <= k < |infos| ensures !StrLess(InfoKey(users, infos[k]), InfoKey(users, x)) {
      LessOneWay(InfoKey(users, x), InfoKey(users, infos[p]));
      if k > p {
        NotLessTransitive(InfoKey(users, x), InfoKey(users, infos[p]), InfoKey(users, infos[k]));
      }
    }
  }

  lemma InsertedAt(users: seq<UserAssoc>, infos: seq<EntryInfo>, p: nat, x: EntryInfo, r: seq<EntryInfo>)
    requires SortedInfos(users, infos) && p <= |infos| && r == infos[..p] + [x] + infos[p..]
    requires forall k :: 0 <= k < p ==> !StrLess(InfoKey(users, x), InfoKey(users, infos[k]))
    requires forall k :: p <= k < |infos| ==> !StrLess(InfoKey(users, infos[k]), InfoKey(users, x))
    ensures SortedInfos(users, r) && multiset(r) == multiset(infos) + multiset{x}
  {
    assert infos == infos[..p] + infos[p..];
    assert forall k :: 0 <= k < p ==> r[k] == infos[k];
    assert forall k :: p < k < |r| ==> r[k] == infos[k - 1];
  }

  /** sort.Slice: any sorted arrangement of the same infos. */
  method SortInfos(users: seq<UserAssoc>, infos: seq<EntryInfo>) returns (r: seq<EntryInfo>)
    ensures SortedInfos(users, r) && multiset(r) == multiset(infos)
  {
    r := [];
    for i := 0 to |infos|
      invariant SortedInfos(users, r) && multiset(r) == multiset(infos[..i])
    {
      assert infos[..i + 1] == infos[..i] + [infos[i]];
      r := InsertInfo(users, r, infos[i]);
    }
    assert infos[..|infos|] == infos;
  }

  function BuiltEntry(i: EntryInfo, d: Details): Entry {
    Entry(i.initID, i.profileID, ToInt32(i.topIndex), ToInt32(i.cursorIndex), i.name, i.path, d.metaTitle, d.themeList,
          d.bodySize, ToInt32(d.bodyRows), d.commitTime, ToInt32(d.numErrors), "", NOTHING)
  }

  /** What a rebuild of the cache from these users may give: the logbook's datasets, in order. */
  ghost predicate IsRebuild(root: Root, users: seq<UserLog>) {
    && BookInfos(users).Some?
    && multiset(Cores(root.refs)) == multiset(InfoCores(BookInfos(users).value))
    && Sorted(root)
  }

  /** Rebuilds the cache: the infos of the logbook, sorted, each with the details of its version.
    * None where the logbook replay panics. */
  method BuildDscache(pairs: seq<UserAssoc>, users: seq<UserLog>, details: string -> Details) returns (r: Option<Root>)
    ensures r.Some? <==> BookInfos(users).Some?
    ensures r.Some? ==> IsRebuild(r.value, users) && r.value.users == pairs
    ensures r.Some? ==> forall e :: e in r.value.refs ==>
              var d := details(e.headRef);
              && e.metaTitle == d.metaTitle && e.themeList == d.themeList && e.bodySize == d.bodySize
              && e.bodyRows == ToInt32(d.bodyRows) && e.commitTime == d.commitTime && e.numErrors == ToInt32(d.numErrors)
              && e.fsiPath == "" && e.uncopied == NOTHING
  {
    var converted := ConvertLogbook(users);
    if converted.None? { return None; }
    var sorted := SortInfos(pairs, converted.value);
    var refs := [];
    for i := 0 to |sorted|
      invariant |refs| == i && forall k :: 0 <= k < i ==> refs[k] == BuiltEntry(sorted[k], details(sorted[k].path))
    {
      refs := refs + [BuiltEntry(sorted[i], details(sorted[i].path))];
    }
    r := Some(Root(pairs, refs));
    assert Cores(refs) == InfoCores(sorted);
    CoresOfPermutation(sorted, converted.value);
  }

  lemma {:induction false} CoresOfPermutation(a: seq<EntryInfo>, b: seq<EntryInfo>)
    requires multiset(a) == multiset(b)
    ensures multiset(InfoCores(a)) == multiset(InfoCores(b))
  {
    if a == [] {
      assert |multiset(b)| == 0;
      assert InfoCores(a) == InfoCores(b);
    } else {
      var rest, x := a[..|a| - 1], a[|a| - 1];
      var front, back := SplitLike(rest, x, a, b);
      CoresOfPermutation(rest, front + back);
      assert InfoCores(a) == InfoCores(rest) + ([CoreOfInfo(x)] + []);
      assert InfoCores(rest) + [] == InfoCores(rest);
      assert InfoCores(b) == InfoCores(front) + ([CoreOfInfo(x)] + InfoCores(back));
      assert InfoCores(front + back) == InfoCores(front) + InfoCores(back);
      MiddleOut(InfoCores(rest), [CoreOfInfo(x)], []);
      MiddleOut(InfoCores(front), [CoreOfInfo(x)], InfoCores(back));
    }
  }

  // ---- a rebuild is determined by the logbook ----

  ghost predicate DistinctKeys(root: Root) {
    forall i, j :: 0 <= i < j < |root.refs| ==> Key(root.users, root.refs[i]) != Key(root.users, root.refs[j])
  }

  function CoreKey(users: seq<UserAssoc>, c: Core): string { PrettyRef(users, c.profileID, c.name) }

  /** With distinct human-readable references any two rebuilds hold the same cores in the same order. */
  lemma {:induction false} SortedCoresUnique(users: seq<UserAssoc>, a: seq<Core>, b: seq<Core>)
    requires multiset(a) == multiset(b)
    requires forall i, j :: 0 <= i < j < |a| ==> StrLess(CoreKey(users, a[i]), CoreKey(users, a[j]))
    requires forall i, j :: 0 <= i < j < |b| ==> !StrLess(CoreKey(users, b[j]), CoreKey(users, b[i]))
    ensures a == b
  {
    if a == [] {
      assert |multiset(b)| == 0;
    } else {
      FirstIsLeast(users, a, b);
      SameTails(a, b);
      var rest, rest' := a[1..], b[1..];
      SortedCoresUnique(users, rest, rest');
      assert a == [a[0]] + rest && b == [b[0]] + rest';
    }
  }

  lemma SameTails<T>(a: seq<T>, b: seq<T>)
    requires a != [] && b != [] && a[0] == b[0] && multiset(a) == multiset(b)
    ensures multiset(a[1..]) == multiset(b[1..])
  {
    var one := multiset([a[0]]);
    assert multiset(a) == multiset(a[1..]) + one by { assert a == [a[0]] + a[1..]; }
    assert multiset(b) == multiset(b[1..]) + one by { assert b == [b[0]] + b[1..]; }
    Cancel(multiset(a[1..]), multiset(b[1..]), one);
  }

  lemma FirstIsLeast(users: seq<UserAssoc>, a: seq<Core>, b: seq<Core>)
    requires a != [] && multiset(a) == multiset(b)
    requires forall j :: 0 < j < |a| ==> StrLess(CoreKey(users, a[0]), CoreKey(users, a[j]))
    requires forall j :: 0 < j < |b| ==> !StrLess(CoreKey(users, b[j]), CoreKey(users, b[0]))
    ensures b != [] && a[0] == b[0]
  {
    assert a[0] in multiset(b);
    assert b[0] in multiset(a);
    var i :| 0 <= i < |a| && a[i] == b[0];
    var j :| 0 <= j < |b| && b[j] == a[0];
    assert i > 0 ==> StrLess(CoreKey(users, a[0]), CoreKey(users, b[0]));
    assert j > 0 ==> !StrLess(CoreKey(users, a[0]), CoreKey(users, b[0]));
  }

  lemma RebuildsAgree(r: Root, s: Root, users: seq<UserLog>)
    requires IsRebuild(r, users) && IsRebuild(s, users) && r.users == s.users && DistinctKeys(r)
    ensures Cores(r.refs) == Cores(s.refs)
  {
    var a, b := Cores(r.refs), Cores(s.refs);
    forall i, j | 0 <= i < j < |a| ensures StrLess(CoreKey(r.users, a[i]), CoreKey(r.users, a[j])) {
      assert !StrLess(Key(r.users, r.refs[j]), Key(r.users, r.refs[i]));
      if !StrLess(CoreKey(r.users, a[i]), CoreKey(r.users, a[j])) {
        NotLessBothWays(CoreKey(r.users, a[i]), CoreKey(r.users, a[j]));
      }
    }
    forall i, j | 0 <= i < j < |b| ensures !StrLess(CoreKey(r.users, b[j]), CoreKey(r.users, b[i])) {
      assert !StrLess(Key(s.users, s.refs[j]), Key(s.users, s.refs[i]));
    }
    SortedCoresUnique(r.users, a, b);
  }
}
