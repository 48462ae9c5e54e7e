/** The dscache object: lookups over its entries and the updates it makes on logbook events
  * (dscache/dscache.go, dscache/mutator.go). */
module DsCache {
  import opened Prelude
  import opened DsRef
  import opened Logbook
  import opened CacheEntries

  datatype CacheError = NoDscache | UnknownUsername | RefNotFound

  const NANOS_PER_SECOND := 1_000_000_000

  // ---- what each event does to one entry ----

  function MovedCursor(e: Entry, act: DsChange): Entry {
    var top := ToInt32(act.topIndex);
    var copy := Copied(e).(topIndex := Overwrite(e.topIndex, top), cursorIndex := Overwrite(e.cursorIndex, top), headRef := act.headRef);
    match act.info
    case None => copy
    case Some(info) =>
      copy.(metaTitle := info.metaTitle,
            commitTime := Overwrite(e.commitTime, info.commitTime / NANOS_PER_SECOND),
            bodySize := Overwrite(e.bodySize, info.bodySize),
            bodyRows := Overwrite(e.bodyRows, ToInt32(info.bodyRows)),
            numErrors := Overwrite(e.numErrors, ToInt32(info.numErrors)))
  }

  predicate LinkMatches(e: Entry, act: DsChange, defaultUsername: string) {
    if act.initID != "" then e.initID == act.initID
    else defaultUsername == act.username && e.name == act.prettyName
  }

  /** Copies every entry, with the matching ones replaced, or dropped where there is no replacement. */
  function Replacing(matches: Entry -> bool, replace: Option<Entry -> Entry>): Entry -> Option<Entry> {
    (e: Entry) =>
      if !matches(e) then Some(Copied(e))
      else match replace case None => None case Some(r) => Some(r(e))
  }

  function HasID(id: string): Entry -> bool { (e: Entry) => e.initID == id }

  function IsLinked(act: DsChange, defaultUsername: string): Entry -> bool {
    (e: Entry) => LinkMatches(e, act, defaultUsername)
  }

  function MoveCursor(act: DsChange): Entry -> Entry { (e: Entry) => MovedCursor(e, act) }

  function SetLink(act: DsChange): Entry -> Entry { (e: Entry) => Copied(e).(fsiPath := act.dir) }

  function CursorUpdate(act: DsChange): Entry -> Option<Entry> {
    Replacing(HasID(act.initID), Some(MoveCursor(act)))
  }

  function DeleteUpdate(act: DsChange): Entry -> Option<Entry> {
    Replacing(HasID(act.initID), None)
  }

  function LinkUpdate(act: DsChange, defaultUsername: string): Entry -> Option<Entry> {
    Replacing(IsLinked(act, defaultUsername), Some(SetLink(act)))
  }

  function UpdateOf(ev: Event, defaultUsername: string): Entry -> Option<Entry> {
    match ev
    case CommitChange(act) => CursorUpdate(act)
    case DeleteAll(act) => DeleteUpdate(act)
    case CreateLink(act) => LinkUpdate(act, defaultUsername)
  }

  /** The cache after an event. */
  function Handled(root: Root, ev: Event, defaultUsername: string): Root {
    Root(root.users, Rework(root.refs, UpdateOf(ev, defaultUsername)))
  }

  // ---- lookups ----

  /** The profile of the first user with that name, or the profile the reference came with. */
  function ProfileFor(users: seq<UserAssoc>, username: string, given: string): string {
    if users == [] then given
    else if users[0].username == username then users[0].profileID
    else ProfileFor(users[1..], username, given)
  }

  function FindEntry(refs: seq<Entry>, profileID: string, name: string): (i: int)
    ensures -1 <= i < |refs|
    ensures i >= 0 ==> refs[i].profileID == profileID && refs[i].name == name
    ensures forall k :: 0 <= k < (if i == -1 then |refs| else i) ==> !(refs[k].profileID == profileID && refs[k].name == name)
  {
    if refs == [] then -1
    else if refs[0].profileID == profileID && refs[0].name == name then 0
    else var i := FindEntry(refs[1..], profileID, name); if i == -1 then -1 else i + 1
  }

  function Lookup(root: Root, ref: Ref): Result<Entry, CacheError> {
    var profileID := ProfileFor(root.users, ref.username, ref.profileID);
    if profileID == "" then Err(UnknownUsername)
    else
      var i := FindEntry(root.refs, profileID, ref.name);
      if i == -1 then Err(RefNotFound) else Ok(root.refs[i])
  }

  class Dscache {
    var root: Option<Root>
    const defaultUsername: string

    constructor (root: Option<Root>, defaultUsername: string)
      ensures this.root == root && this.defaultUsername == defaultUsername
    {
      this.root, this.defaultUsername := root, defaultUsername;
    }

    method LookupByName(ref: Ref) returns (found: Result<Entry, CacheError>)
      requires root.Some?
      ensures found == Lookup(root.value, ref)
    {
      var users, refs := root.value.users, root.value.refs;
      var profileID := ref.profileID;
      var i := 0;
      while i < |users|
        invariant 0 <= i <= |users| && profileID == ref.profileID
        invariant ProfileFor(users, ref.username, ref.profileID) == ProfileFor(users[i..], ref.username, ref.profileID)
      {
        if ref.username == users[i].username {
          profileID := users[i].profileID;
          break;
        }
        i := i + 1;
      }
      if profileID == "" { return Err(UnknownUsername); }
      for k := 0 to |refs|
        invariant forall j :: 0 <= j < k ==> !(refs[j].profileID == profileID && refs[j].name == ref.name)
      {
        if refs[k].profileID == profileID && refs[k].name == ref.name {
          return Ok(refs[k]);
        }
      }
      found := Err(RefNotFound);
    }

    /** A vector is built backwards, by prepending. */
    static method BuildVector<T>(list: seq<T>) returns (vector: seq<T>)
      ensures vector == list
    {
      vector := [];
      var i := |list| - 1;
      while i >= 0
        invariant -1 <= i < |list| && vector == list[i + 1..]
      {
        vector := [list[i]] + vector;
        i := i - 1;
      }
    }

    method CopyUserAssociationList() returns (users: seq<UserAssoc>)
      requires root.Some?
      ensures users == root.value.users
    {
      var userList := [];
      for i := 0 to |root.value.users|
        invariant userList == root.value.users[..i]
      {
        var up := root.value.users[i];
        userList := userList + [UserAssoc(up.username, up.profileID)];
      }
      users := BuildVector(userList);
    }

    method CopyReferenceListWithReplacement(matches: Entry -> bool, replace: Option<Entry -> Entry>)
      returns (refs: seq<Entry>)
      requires root.Some?
      ensures refs == Rework(root.value.refs, Replacing(matches, replace))
    {
      var all, refList := root.value.refs, [];
      for i := 0 to |all|
        invariant refList == Rework(all[..i], Replacing(matches, replace))
      {
        var r := all[i];
        assert all[..i + 1][..i] == all[..i];
        if matches(r) {
          if replace.Some? {
            refList := refList + [replace.value(r)];
          }
        } else {
          refList := refList + [Copied(r)];
        }
      }
      assert all[..|all|] == all;
      refs := BuildVector(refList);
    }

    method UpdateChangeCursor(act: DsChange) returns (err: Option<CacheError>)
      modifies this`root
      ensures old(root).None? ==> err == Some(NoDscache) && root.None?
      ensures old(root).Some? ==> err == None && root == Some(Handled(old(root).value, CommitChange(act), defaultUsername))
    {
      if root.None? { return Some(NoDscache); }
      var users := CopyUserAssociationList();
      var refs := CopyReferenceListWithReplacement(HasID(act.initID), Some(MoveCursor(act)));
      root, err := Some(Root(users, refs)), None;
    }

    method UpdateDeleteDataset(act: DsChange) returns (err: Option<CacheError>)
      modifies this`root
      ensures old(root).None? ==> err == Some(NoDscache) && root.None?
      ensures old(root).Some? ==> err == None && root == Some(Handled(old(root).value, DeleteAll(act), defaultUsername))
    {
      if root.None? { return Some(NoDscache); }
      var users := CopyUserAssociationList();
      var refs := CopyReferenceListWithReplacement(HasID(act.initID), None);
      root, err := Some(Root(users, refs)), None;
    }

    method UpdateCreateLink(act: DsChange) returns (err: Option<CacheError>)
      modifies this`root
      ensures old(root).None? ==> err == Some(NoDscache) && root.None?
      ensures old(root).Some? ==> err == None && root == Some(Handled(old(root).value, CreateLink(act), defaultUsername))
    {
      if root.None? { return Some(NoDscache); }
      var users := CopyUserAssociationList();
      var refs := CopyReferenceListWithReplacement(IsLinked(act, defaultUsername), Some(SetLink(act)));
      root, err := Some(Root(users, refs)), None;
    }

    /** Listens to the events of the logbook; an empty cache ignores them. */
    method Handler(ev: Event)
      modifies this`root
      ensures root == match old(root)
                      case None => None
                      case Some(r) => Some(Handled(r, ev, defaultUsername))
    {
      match ev {
        case CommitChange(act) => var _ := UpdateChangeCursor(act);
        case DeleteAll(act) => var _ := UpdateDeleteDataset(act);
        case CreateLink(act) => var _ := UpdateCreateLink(act);
      }
    }
  }

  // ---- what the updates keep ----

  /** Whether an event means this entry. */
  predicate Meant(e: Entry, ev: Event, defaultUsername: string) {
    match ev
    case CommitChange(act) => e.initID == act.initID
    case DeleteAll(act) => e.initID == act.initID
    case CreateLink(act) => LinkMatches(e, act, defaultUsername)
  }

  /** What an event makes of one entry. */
  function Effect(e: Entry, ev: Event, defaultUsername: string): Option<Entry> {
    if !Meant(e, ev, defaultUsername) then Some(Copied(e))
    else
      match ev
      case CommitChange(act) => Some(MovedCursor(e, act))
      case DeleteAll(_) => None
      case CreateLink(act) => Some(Copied(e).(fsiPath := act.dir))
  }

  lemma EffectOfUpdate(e: Entry, ev: Event, defaultUsername: string)
    ensures UpdateOf(ev, defaultUsername)(e) == Effect(e, ev, defaultUsername)
  {
  }

  /** Users and sort order survive every event. Entries an event does not mean keep every carried
    * field, and, in a cache whose entries hold no other fields, stay as they are. */
  lemma UpdatesKeepOrder(root: Root, ev: Event, defaultUsername: string)
    requires Sorted(root)
    ensures Sorted(Handled(root, ev, defaultUsername)) && Handled(root, ev, defaultUsername).users == root.users
    ensures forall e :: !Meant(e, ev, defaultUsername) ==> UpdateOf(ev, defaultUsername)(e) == Some(Copied(e))
    ensures forall e :: Copied(e) == e <==> e.uncopied == NOTHING
  {
    var f := UpdateOf(ev, defaultUsername);
    forall e ensures f(e) == Effect(e, ev, defaultUsername) {
      EffectOfUpdate(e, ev, defaultUsername);
    }
    ReworkKeepsSorted(root, f);
  }

  /** Cursor and link updates act on every entry in its place. */
  lemma UpdatesInPlace(root: Root, ev: Event, defaultUsername: string)
    requires !ev.DeleteAll?
    ensures var after := Handled(root, ev, defaultUsername).refs;
            |after| == |root.refs| && forall i :: 0 <= i < |after| ==> Effect(root.refs[i], ev, defaultUsername) == Some(after[i])
  {
    forall e ensures UpdateOf(ev, defaultUsername)(e) == Effect(e, ev, defaultUsername) {
      EffectOfUpdate(e, ev, defaultUsername);
    }
    ReworkInPlace(root.refs, UpdateOf(ev, defaultUsername));
  }

  /** A delete drops exactly the entries it means: it copies, in order, the entries at the positions
    * of all the others. */
  lemma DeleteFilters(root: Root, act: DsChange, defaultUsername: string)
    ensures var ev := DeleteAll(act);
            var after, from := Handled(root, ev, defaultUsername).refs, Origins(root.refs, UpdateOf(ev, defaultUsername));
            && |from| == |after|
            && (forall k :: 0 <= k < |from| ==> from[k] < |root.refs| && after[k] == Copied(root.refs[from[k]]))
            && (forall k, l :: 0 <= k < l < |from| ==> from[k] < from[l])
            && (forall i :: 0 <= i < |root.refs| ==> (i in from <==> root.refs[i].initID != act.initID))
  {
    var f := UpdateOf(DeleteAll(act), defaultUsername);
    ReworkKeepsOrder(root.refs, f);
    forall i | 0 <= i < |root.refs| && root.refs[i].initID != act.initID ensures i in Origins(root.refs, f) {
      ReworkKeepsAll(root.refs, f, i);
    }
  }

  /** A name is looked up to the same dataset after a commit event, and shows the new head exactly
    * when the event was for that dataset. */
  lemma LookupAfterCommit(root: Root, act: DsChange, defaultUsername: string, ref: Ref)
    ensures var was, now := Lookup(root, ref), Lookup(Handled(root, CommitChange(act), defaultUsername), ref);
            match was
            case Err(e) => now == Err(e)
            case Ok(entry) =>
              && now.Ok? && now.value.initID == entry.initID
              && now.value.headRef == if entry.initID == act.initID then act.headRef else entry.headRef
  {
    var ev := CommitChange(act);
    UpdatesInPlace(root, ev, defaultUsername);
    FindByNameOnly(root.refs, Handled(root, ev, defaultUsername).refs,
                   ProfileFor(root.users, ref.username, ref.profileID), ref.name);
  }

  lemma {:induction false} FindByNameOnly(a: seq<Entry>, b: seq<Entry>, profileID: string, name: string)
    requires |a| == |b| && forall i :: 0 <= i < |a| ==> a[i].profileID == b[i].profileID && a[i].name == b[i].name
    ensures FindEntry(a, profileID, name) == FindEntry(b, profileID, name)
  {
    if a != [] { FindByNameOnly(a[1..], b[1..], profileID, name); }
  }
}
