/** The contents of a dscache: users and dataset entries, the order entries are kept in, and the
  * copy-and-replace every update is made of (dscache/mutator.go, dscache/convert.go). */
module CacheEntries {
  import opened Prelude

  datatype UserAssoc = UserAssoc(username: string, profileID: string)

  /** Fields of the stored table that no copy carries over. */
  datatype Uncopied = Uncopied(
    published: bool, foreign: bool, bodyFormat: string, numVersions: int, commitTitle: string,
    commitMessage: string, runID: string, runStatus: string, runDuration: int)

  const NOTHING := Uncopied(false, false, "", 0, "", "", "", "", 0)

  datatype Entry = Entry(
    initID: string, profileID: string, topIndex: int, cursorIndex: int, name: string, headRef: string,
    metaTitle: string, themeList: string, bodySize: int, bodyRows: int, commitTime: int, numErrors: int,
    fsiPath: string, uncopied: Uncopied)

  datatype Root = Root(users: seq<UserAssoc>, refs: seq<Entry>)

  /** The conversion of a Go int to int32. */
  function ToInt32(n: int): (r: int)
    ensures -0x8000_0000 <= r < 0x8000_0000
    ensures -0x8000_0000 <= n < 0x8000_0000 ==> r == n
  {
    var low := n % 0x1_0000_0000;
    if low < 0x8000_0000 then low else low - 0x1_0000_0000
  }

  /** It keeps the low 32 bits. */
  lemma ToInt32KeepsLowBits(n: int)
    ensures (n - ToInt32(n)) % 0x1_0000_0000 == 0
  {
  }

  /** Adding a scalar to a table under construction: the default, 0, is not written, so a value
    * added before it stays. */
  function Overwrite(was: int, now: int): int {
    if now != 0 then now else was
  }

  /** copyReference: a new table with the carried fields. */
  function Copied(e: Entry): Entry { e.(uncopied := NOTHING) }

  // ---- order ----

  function StrLess(a: string, b: string): bool {
    b != "" && (a == "" || a[0] < b[0] || (a[0] == b[0] && StrLess(a[1..], b[1..])))
  }

  lemma {:induction false} NotLessTransitive(a: string, b: string, c: string)
    requires !StrLess(b, a) && !StrLess(c, b)
    ensures !StrLess(c, a)
  {
    if a != "" && b != "" && c != "" && a[0] == b[0] == c[0] {
      NotLessTransitive(a[1..], b[1..], c[1..]);
    }
  }

  lemma {:induction false} NotLessBothWays(a: string, b: string)
    requires !StrLess(a, b) && !StrLess(b, a)
    ensures a == b
  {
    if a != "" && b != "" {
      NotLessBothWays(a[1..], b[1..]);
      assert a == [a[0]] + a[1..] && b == [b[0]] + b[1..];
    }
  }

  lemma {:induction false} LessOneWay(a: string, b: string)
    ensures StrLess(a, b) ==> !StrLess(b, a)
  {
    if a != "" && b != "" {
      LessOneWay(a[1..], b[1..]);
    }
  }

  /** The username of a profile: the last association made for it, or nothing. */
  function UsernameOf(users: seq<UserAssoc>, profileID: string): string {
    if users == [] then ""
    else if users[|users| - 1].profileID == profileID then users[|users| - 1].username
    else UsernameOf(users[..|users| - 1], profileID)
  }

  function PrettyRef(users: seq<UserAssoc>, profileID: string, name: string): string {
    UsernameOf(users, profileID) + "/" + name
  }

  function Key(users: seq<UserAssoc>, e: Entry): string { PrettyRef(users, e.profileID, e.name) }

  /** Entries lie in the order of their human-readable references. */
  ghost predicate Sorted(root: Root) {
    forall i, j :: 0 <= i < j < |root.refs| ==> !StrLess(Key(root.users, root.refs[j]), Key(root.users, root.refs[i]))
  }

  // ---- copy and replace ----

  /** What becomes of each entry of a copy: dropped, or kept in some form. */
  function Rework<T>(s: seq<T>, f: T -> Option<T>): seq<T> {
    if s == [] then []
    else Rework(s[..|s| - 1], f) + Kept(f(s[|s| - 1]))
  }

  /** An update that keeps every entry acts on each in its place. */
  lemma {:induction false} ReworkInPlace<T>(s: seq<T>, f: T -> Option<T>)
    requires forall i :: 0 <= i < |s| ==> f(s[i]).Some?
    ensures |Rework(s, f)| == |s|
    ensures forall i :: 0 <= i < |s| ==> Rework(s, f)[i] == f(s[i]).value
  {
    if s != [] {
      ReworkInPlace(s[..|s| - 1], f);
    }
  }

  /** The positions of the old list whose entries an update keeps. */
  ghost function Origins<T>(s: seq<T>, f: T -> Option<T>): seq<nat> {
    if s == [] then []
    else Origins(s[..|s| - 1], f) + if f(s[|s| - 1]).Some? then [|s| - 1] else []
  }

  /** An update keeps its entries in the order they had, each in its updated form, and drops only
    * those it means to drop. */
  lemma {:induction false} ReworkKeepsOrder<T>(s: seq<T>, f: T -> Option<T>)
    ensures var from, after := Origins(s, f), Rework(s, f);
            && |from| == |after|
            && (forall k :: 0 <= k < |from| ==> from[k] < |s| && f(s[from[k]]) == Some(after[k]))
            && (forall k, l :: 0 <= k < l < |from| ==> from[k] < from[l])
  {
    if s != [] {
      ReworkKeepsOrder(s[..|s| - 1], f);
    }
  }

  lemma {:induction false} ReworkKeepsAll<T>(s: seq<T>, f: T -> Option<T>, i: nat)
    requires i < |s| && f(s[i]).Some?
    ensures i in Origins(s, f)
  {
    if i < |s| - 1 {
      ReworkKeepsAll(s[..|s| - 1], f, i);
    } else {
      var from := Origins(s, f);
      assert from[|from| - 1] == i;
    }
  }

  function Kept<T>(x: Option<T>): seq<T> {
    match x case None => [] case Some(y) => [y]
  }

  lemma ReworkTakeOut<T>(front: seq<T>, x: T, back: seq<T>, f: T -> Option<T>)
    ensures multiset(Rework(front + ([x] + back), f)) == multiset(Rework(front + back, f)) + multiset(Kept(f(x)))
  {
    ReworkConcat(front, [x] + back, f);
    ReworkConcat([x], back, f);
    ReworkConcat(front, back, f);
    ReworkOne(x, f);
    MiddleOut(Rework(front, f), Kept(f(x)), Rework(back, f));
  }

  lemma MiddleOut<T>(p: seq<T>, k: seq<T>, q: seq<T>)
    ensures multiset(p + (k + q)) == multiset(p + q) + multiset(k)
  {
  }

  lemma ReworkOne<T>(x: T, f: T -> Option<T>)
    ensures Rework([x], f) == Kept(f(x))
  {
    assert [x][..0] == [];
    assert Rework([x], f) == [] + Kept(f(x));
  }

  lemma SplitAt<T>(b: seq<T>, x: T) returns (front: seq<T>, back: seq<T>)
    requires x in b
    ensures b == front + ([x] + back)
  {
    var j :| 0 <= j < |b| && b[j] == x;
    front, back := b[..j], b[j + 1..];
  }

  /** Lists with the same elements are reworked to lists with the same elements. */
  lemma {:induction false} ReworkMultiset<T>(a: seq<T>, b: seq<T>, f: T -> Option<T>)
    requires multiset(a) == multiset(b)
    ensures multiset(Rework(a, f)) == multiset(Rework(b, f))
  {
    if a == [] {
      assert |multiset(b)| == 0;
    } else {
      var rest, x := a[..|a| - 1], a[|a| - 1];
      var front, back := SplitLike(rest, x, a, b);
      ReworkMultiset(rest, front + back, f);
      ReworkTakeOut(front, x, back, f);
      MiddleOut(Rework(rest, f), Kept(f(x)), []);
      assert Rework(rest, f) + (Kept(f(x)) + []) == Rework(a, f);
      assert Rework(rest, f) + [] == Rework(rest, f);
    }
  }

  lemma SplitLike<T>(rest: seq<T>, x: T, a: seq<T>, b: seq<T>) returns (front: seq<T>, back: seq<T>)
    requires a != [] && rest == a[..|a| - 1] && x == a[|a| - 1] && multiset(a) == multiset(b)
    ensures b == front + ([x] + back) && multiset(rest) == multiset(front + back)
  {
    assert a == rest + [x];
    assert x in multiset(b);
    front, back := SplitAt(b, x);
    SameRest(rest, x, front, back);
  }

  lemma SameRest<T>(rest: seq<T>, x: T, front: seq<T>, back: seq<T>)
    requires multiset(rest + [x]) == multiset(front + ([x] + back))
    ensures multiset(rest) == multiset(front + back)
  {
    MiddleOut(front, [x], back);
    Cancel(multiset(rest), multiset(front + back), multiset([x]));
  }

  lemma Cancel<T>(a: multiset<T>, b: multiset<T>, c: multiset<T>)
    requires a + c == b + c
    ensures a == b
  {
    assert a == a + c - c && b == b + c - c;
  }

  lemma {:induction false} ReworkConcat<T>(a: seq<T>, b: seq<T>, f: T -> Option<T>)
    ensures Rework(a + b, f) == Rework(a, f) + Rework(b, f)
  {
    if b == [] {
      assert a + b == a && Rework(a, f) + [] == Rework(a, f);
    } else {
      var rest, last := b[..|b| - 1], Kept(f(b[|b| - 1]));
      ReworkConcat(a, rest, f);
      assert (a + b)[..|a + b| - 1] == a + rest && (a + b)[|a + b| - 1] == b[|b| - 1];
      Associate(Rework(a, f), Rework(rest, f), last);
    }
  }

  lemma Associate<T>(a: seq<T>, b: seq<T>, c: seq<T>)
    ensures (a + b) + c == a + (b + c)
  {
  }

  /** Updates that leave profile and name alone keep a cache sorted. */
  lemma ReworkKeepsSorted(root: Root, f: Entry -> Option<Entry>)
    requires Sorted(root)
    requires forall e :: f(e).Some? ==> f(e).value.profileID == e.profileID && f(e).value.name == e.name
    ensures Sorted(root.(refs := Rework(root.refs, f)))
  {
    var after, from := Rework(root.refs, f), Origins(root.refs, f);
    ReworkKeepsOrder(root.refs, f);
    forall i, j | 0 <= i < j < |after|
      ensures !StrLess(Key(root.users, after[j]), Key(root.users, after[i]))
    {
      assert from[i] < from[j];
    }
  }
}
