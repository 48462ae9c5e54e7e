/** The content-addressed store: stored versions, each naming the version it grew from, and the
  * chain a walk along PreviousPath visits (base/log.go, base/remove.go). */
module ContentStore {
  import opened Prelude

  /** The components of a version that a revision can select. */
  datatype Component = Body | Meta | Transform | CommitInfo | Viz | Readme | Structure

  datatype Stored = Stored(previousPath: string, components: map<Component, string>)

  type Store = map<string, Stored>

  /** A version's address is computed from contents that include PreviousPath, so no chain returns
    * to where it started: every path lies deeper than the one before it. */
  ghost predicate Ranked(store: Store, depth: string -> nat) {
    forall p :: p in store && store[p].previousPath != "" ==> depth(store[p].previousPath) < depth(p)
  }

  /** The stored versions met walking back from path, newest first, up to the first version or the
    * first path that cannot be loaded. */
  ghost function History(store: Store, depth: string -> nat, path: string): (h: seq<string>)
    requires Ranked(store, depth)
    ensures path in store <==> h != []
    ensures h != [] ==> h[0] == path
    ensures forall i :: 0 <= i < |h| ==> h[i] in store
    decreases depth(path)
  {
    if path !in store then []
    else
      var prev := store[path].previousPath;
      [path] + if prev == "" then [] else History(store, depth, prev)
  }

  /** Every ancestor of path is in the store. */
  ghost predicate Complete(store: Store, depth: string -> nat, path: string)
    requires Ranked(store, depth)
    decreases depth(path)
  {
    path in store && (store[path].previousPath == "" || Complete(store, depth, store[path].previousPath))
  }

  lemma {:induction false} HistoryDescends(store: Store, depth: string -> nat, path: string)
    requires Ranked(store, depth)
    ensures var h := History(store, depth, path);
            (forall i :: 0 < i < |h| ==> depth(h[i]) < depth(path)) && Distinct(h)
    decreases depth(path)
  {
    if path in store && store[path].previousPath != "" {
      var prev := store[path].previousPath;
      HistoryDescends(store, depth, prev);
      var h, rest := History(store, depth, path), History(store, depth, prev);
      forall i | 0 < i < |h| ensures depth(h[i]) < depth(path) {
        assert h[i] == rest[i - 1];
      }
    }
  }

  /** Walking back k versions from path reaches the k-th version of its history. */
  lemma {:induction false} HistorySuffix(store: Store, depth: string -> nat, path: string, k: nat)
    requires Ranked(store, depth) && k < |History(store, depth, path)|
    ensures var h := History(store, depth, path);
            && History(store, depth, h[k]) == h[k..]
            && (Complete(store, depth, path) ==> Complete(store, depth, h[k]))
    decreases k
  {
    if k > 0 {
      HistorySuffix(store, depth, store[path].previousPath, k - 1);
    }
  }

  /** A history depends only on the versions in it, and a complete one not on absent paths. */
  lemma {:induction false} HistoryLocal(a: Store, b: Store, depth: string -> nat, path: string)
    requires Ranked(a, depth) && Ranked(b, depth) && Complete(a, depth, path)
    requires forall p :: p in History(a, depth, path) ==> p in b && b[p] == a[p]
    ensures History(b, depth, path) == History(a, depth, path) && Complete(b, depth, path)
    decreases depth(path)
  {
    assert History(a, depth, path)[0] == path;
    var prev := a[path].previousPath;
    if prev != "" {
      forall p | p in History(a, depth, prev) ensures p in b && b[p] == a[p] {
        assert p in History(a, depth, path);
      }
      HistoryLocal(a, b, depth, prev);
    }
  }
}
