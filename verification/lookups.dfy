/** What a dscache shows: which dataset a name is looked up to, the order of its entries, and what an
  * event leaves in them (dscache/dscache.go, dscache/convert.go). */
module CacheLookups {
  import opened Prelude
  import opened DsRef
  import opened OpLog
  import opened Writes
  import opened Logbook
  import opened CacheEntries
  import opened DsCache

  // ---- names ----

  /** i is the first user of that name. */
  predicate FirstUser(users: seq<UserAssoc>, username: string, i: nat) {
    i < |users| && users[i].username == username && forall j :: 0 <= j < i ==> users[j].username != username
  }

  lemma {:induction false} ProfileIsFirst(users: seq<UserAssoc>, username: string, given: string, i: nat)
    requires FirstUser(users, username, i)
    ensures ProfileFor(users, username, given) == users[i].profileID
  {
    if i > 0 {
      assert users[0].username != username;
      assert forall j :: 0 <= j < i - 1 ==> users[1..][j] == users[j + 1];
      ProfileIsFirst(users[1..], username, given, i - 1);
    }
  }

  lemma {:induction false} ProfileIsGiven(users: seq<UserAssoc>, username: string, given: string)
    requires forall j :: 0 <= j < |users| ==> users[j].username != username
    ensures ProfileFor(users, username, given) == given
  {
    if users != [] { ProfileIsGiven(users[1..], username, given); }
  }

  /** k is the first entry of that profile and name. */
  predicate FirstEntry(refs: seq<Entry>, profileID: string, name: string, k: nat) {
    && k < |refs| && refs[k].profileID == profileID && refs[k].name == name
    && forall m :: 0 <= m < k ==> !(refs[m].profileID == profileID && refs[m].name == name)
  }

  lemma FindsFirst(refs: seq<Entry>, profileID: string, name: string, k: nat)
    requires FirstEntry(refs, profileID, name, k)
    ensures FindEntry(refs, profileID, name) == k
  {
  }

  /** A name is looked up in the profile of the first user of that name, or without such a user in the
    * profile the reference came with, and to the first entry there. */
  lemma LookupOfUser(root: Root, ref: Ref, i: nat, k: nat)
    requires FirstUser(root.users, ref.username, i) && root.users[i].profileID != ""
    ensures FirstEntry(root.refs, root.users[i].profileID, ref.name, k) ==> Lookup(root, ref) == Ok(root.refs[k])
    ensures (forall m :: 0 <= m < |root.refs| ==> !(root.refs[m].profileID == root.users[i].profileID && root.refs[m].name == ref.name))
            ==> Lookup(root, ref) == Err(RefNotFound)
  {
    ProfileIsFirst(root.users, ref.username, ref.profileID, i);
    if FirstEntry(root.refs, root.users[i].profileID, ref.name, k) {
      FindsFirst(root.refs, root.users[i].profileID, ref.name, k);
    }
  }

  lemma LookupOfStranger(root: Root, ref: Ref, k: nat)
    requires forall j :: 0 <= j < |root.users| ==> root.users[j].username != ref.username
    ensures ref.profileID == "" ==> Lookup(root, ref) == Err(UnknownUsername)
    ensures ref.profileID != "" && FirstEntry(root.refs, ref.profileID, ref.name, k) ==> Lookup(root, ref) == Ok(root.refs[k])
  {
    ProfileIsGiven(root.users, ref.username, ref.profileID);
    if FirstEntry(root.refs, ref.profileID, ref.name, k) { FindsFirst(root.refs, ref.profileID, ref.name, k); }
  }

  /** Every user has one profile, every profile one user. */
  ghost predicate OneToOne(users: seq<UserAssoc>) {
    forall i, j :: 0 <= i < j < |users| ==> users[i].username != users[j].username && users[i].profileID != users[j].profileID
  }

  lemma {:induction false} UsernameOfUser(users: seq<UserAssoc>, i: nat)
    requires OneToOne(users) && i < |users|
    ensures UsernameOf(users, users[i].profileID) == users[i].username
  {
    var n := |users| - 1;
    if i < n {
      UsernameOfUser(users[..n], i);
    }
  }

  /** The index has an inverse: in a cache whose users and profiles belong together and whose datasets
    * have one entry each, every entry is found again by the human-readable reference it is sorted by. */
  lemma LookupFindsEntry(root: Root, i: nat, k: nat)
    requires OneToOne(root.users) && i < |root.users| && root.users[i].profileID != ""
    requires k < |root.refs| && root.refs[k].profileID == root.users[i].profileID
    requires forall m :: 0 <= m < |root.refs| && m != k ==>
               !(root.refs[m].profileID == root.refs[k].profileID && root.refs[m].name == root.refs[k].name)
    ensures var e := root.refs[k];
            Lookup(root, EMPTY_REF.(username := UsernameOf(root.users, e.profileID), name := e.name)) == Ok(e)
  {
    UsernameOfUser(root.users, i);
    var e := root.refs[k];
    LookupOfUser(root, EMPTY_REF.(username := root.users[i].username, name := e.name), i, k);
  }

  // ---- order ----

  /** Strings are ordered by the first character they differ in, a prefix before what it begins. */
  lemma {:induction false} StrLessIff(a: string, b: string)
    ensures StrLess(a, b) <==>
            exists k :: 0 <= k <= |a| && k < |b| && a[..k] == b[..k] && (k == |a| || a[k] < b[k])
  {
    if StrLess(a, b) {
      if a == "" || a[0] < b[0] {
        assert a[..0] == b[..0];
      } else {
        StrLessIff(a[1..], b[1..]);
        var k :| 0 <= k <= |a[1..]| && k < |b[1..]| && a[1..][..k] == b[1..][..k] && (k == |a[1..]| || a[1..][k] < b[1..][k]);
        assert a[..k + 1] == [a[0]] + a[1..][..k] && b[..k + 1] == [b[0]] + b[1..][..k];
      }
    }
    if k :| 0 <= k <= |a| && k < |b| && a[..k] == b[..k] && (k == |a| || a[k] < b[k]) {
      if k > 0 {
        assert a[0] == a[..k][0] == b[..k][0] == b[0];
        assert a[1..][..k - 1] == a[..k][1..] && b[1..][..k - 1] == b[..k][1..];
        StrLessIff(a[1..], b[1..]);
        assert k - 1 == |a[1..]| || a[1..][k - 1] < b[1..][k - 1];
      }
    }
  }

  /** The username of a profile is the one it was given last. */
  lemma {:induction false} UsernameIsLast(users: seq<UserAssoc>, profileID: string, i: nat)
    requires i < |users| && users[i].profileID == profileID && forall j :: i < j < |users| ==> users[j].profileID != profileID
    ensures UsernameOf(users, profileID) == users[i].username
  {
    var n := |users| - 1;
    if i < n { UsernameIsLast(users[..n], profileID, i); }
  }

  /** In a sorted cache "username/name" ascends. */
  lemma SortedAscends(root: Root, i: nat, j: nat)
    requires Sorted(root) && i < j < |root.refs|
    ensures var (a, b) := (UsernameOf(root.users, root.refs[i].profileID) + "/" + root.refs[i].name,
                           UsernameOf(root.users, root.refs[j].profileID) + "/" + root.refs[j].name);
            a == b || StrLess(a, b)
  {
    var a, b := Key(root.users, root.refs[i]), Key(root.users, root.refs[j]);
    assert !StrLess(b, a);
    if !StrLess(a, b) { NotLessBothWays(a, b); }
  }

  // ---- events ----

  /** A link event sets the directory of the entry with its ID, or, without one, of every entry with its
    * name when its user is the cache's own, whatever profile that entry is of. */
  lemma LinkReaches(root: Root, act: DsChange, defaultUsername: string, i: nat)
    requires i < |root.refs|
    ensures var after := Handled(root, CreateLink(act), defaultUsername).refs;
            |after| == |root.refs| &&
            var e := root.refs[i].(uncopied := NOTHING);
            after[i] ==
            if (act.initID != "" && e.initID == act.initID)
               || (act.initID == "" && defaultUsername == act.username && e.name == act.prettyName)
            then e.(fsiPath := act.dir) else e
  {
    UpdatesInPlace(root, CreateLink(act), defaultUsername);
  }

  /** A value that an event carries, unless it is 0: then the one before stays. */
  function Shown(was: int, now: int): int { if now == 0 then was else now }

  /** After a save's event the name shows what was saved: the head, and the version's details, but for
    * those that are 0. */
  lemma SaveIsShown(root: Root, users: seq<UserLog>, authorID: string, defaultUsername: string, id: string,
                    ds: Version, run: Option<RunState>, ref: Ref, e: Entry)
    requires Lookup(root, ref) == Ok(e) && e.initID == id
    requires SaveOutcome(users, authorID, id, ds, run).err == None
    ensures |SaveOutcome(users, authorID, id, ds, run).published| == 1
    ensures var ev := SaveOutcome(users, authorID, id, ds, run).published[0];
            var now := Lookup(Handled(root, ev, defaultUsername), ref);
            var length := match ds.bodyLength case None => 0 case Some(n) => n;
            && now.Ok? && now.value.initID == id && now.value.profileID == e.profileID && now.value.name == e.name
            && now.value.headRef == ds.path && now.value.metaTitle == ds.metaTitle
            && now.value.commitTime == Shown(e.commitTime, ds.timestamp / 1_000_000_000)
            && now.value.bodySize == Shown(e.bodySize, length)
            && now.value.bodyRows == Shown(e.bodyRows, ToInt32(ds.bodyRows))
            && now.value.numErrors == Shown(e.numErrors, ToInt32(ds.numErrors))
            && now.value.themeList == e.themeList && now.value.fsiPath == e.fsiPath
  {
    var ev := SaveOutcome(users, authorID, id, ds, run).published[0];
    var profileID := ProfileFor(root.users, ref.username, ref.profileID);
    var k := FindEntry(root.refs, profileID, ref.name);
    UpdatesInPlace(root, ev, defaultUsername);
    FindByNameOnly(root.refs, Handled(root, ev, defaultUsername).refs, profileID, ref.name);
  }
}
