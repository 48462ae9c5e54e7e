/** Picking components out of a dataset's history by generation (base/revisions.go): the versions are
  * walked from the newest, every revision asked for counts those that have its component, and takes the
  * component of the one its generation names. */
module Revisions {
  import opened Prelude
  import opened ContentStore

  /** The component a field names; "ds" and anything unknown name none. */
  function PartOf(field: string): Option<Component> {
    if field == "bd" then Some(Body) else if field == "md" then Some(Meta) else if field == "tf" then Some(Transform)
    else if field == "cm" then Some(CommitInfo) else if field == "vz" then Some(Viz)
    else if field == "rm" then Some(Readme) else if field == "st" then Some(Structure) else None
  }

  /** Whether a version counts as a generation of a field. */
  predicate Has(v: Stored, field: string) {
    field == "ds" || (PartOf(field).Some? && PartOf(field).value in v.components)
  }

  /** A revision as it is asked for. */
  datatype Want = Want(field: string, gen: int)

  /** The generations of a field among the n newest versions. */
  function Count(vs: seq<Stored>, field: string, n: nat): nat
    requires n <= |vs|
  {
    if n == 0 then 0 else Count(vs, field, n - 1) + if Has(vs[n - 1], field) then 1 else 0
  }

  /** Version j is the one a revision asks for, and the revision is for component c. */
  predicate Picks(vs: seq<Stored>, w: Want, c: Component, j: nat)
    requires j < |vs|
  {
    PartOf(w.field) == Some(c) && c in vs[j].components && w.gen == Count(vs, w.field, j + 1)
  }

  ghost predicate SomePicks(vs: seq<Stored>, ws: seq<Want>, c: Component, j: nat)
    requires j < |vs|
  {
    exists w :: w in ws && Picks(vs, w, c, j)
  }

  /** What the revisions pick for a component from the n newest versions: the oldest one picked. */
  ghost function Picked(vs: seq<Stored>, ws: seq<Want>, c: Component, n: nat): Option<string>
    requires n <= |vs|
  {
    if n == 0 then None
    else if SomePicks(vs, ws, c, n - 1) then Get(vs[n - 1].components, c)
    else Picked(vs, ws, c, n - 1)
  }

  function Get(m: map<Component, string>, c: Component): Option<string> { if c in m then Some(m[c]) else None }

  /** Every revision's counter is at zero after the n newest versions. */
  ghost predicate AllMet(vs: seq<Stored>, ws: seq<Want>, n: nat)
    requires n <= |vs|
  {
    forall w :: w in ws ==> w.gen == Count(vs, w.field, n)
  }

  class Rev {
    const field: string
    var gen: int

    constructor (field: string, gen: int)
      ensures this.field == field && this.gen == gen
    {
      this.field, this.gen := field, gen;
    }
  }

  /** The dataset that is filled in. */
  class Selection {
    var components: map<Component, string>

    constructor ()
      ensures components == map[]
    {
      components := map[];
    }
  }

  /** sel: counts a version, and copies its component when the counter gets to zero. The "ds" case
    * assigns the version to a parameter, which the caller does not see. */
  method Sel(r: Rev, v: Stored, res: Selection) returns (met: bool)
    modifies r, res
    ensures r.gen == old(r.gen) - if Has(v, r.field) then 1 else 0
    ensures met <==> r.gen == 0
    ensures res.components ==
            match PartOf(r.field)
            case None => old(res.components)
            case Some(c) =>
              if c in v.components && r.gen == 0 then old(res.components)[c := v.components[c]] else old(res.components)
  {
    if r.field == "ds" {
      r.gen := r.gen - 1;
    } else {
      match PartOf(r.field)
      case None =>
      case Some(c) =>
        if c in v.components {
          r.gen := r.gen - 1;
          if r.gen == 0 {
            res.components := res.components[c := v.components[c]];
          }
        }
    }
    met := r.gen == 0;
  }

  function WantOf(r: Rev): Want
    reads r
  {
    Want(r.field, r.gen)
  }

  function WantsOf(revs: seq<Rev>): seq<Want>
    reads revs
  {
    seq(|revs|, i requires 0 <= i < |revs| reads revs => WantOf(revs[i]))
  }

  ghost function Versions(store: Store, depth: string -> nat, path: string): (vs: seq<Stored>)
    requires Ranked(store, depth)
  {
    var h := History(store, depth, path);
    seq(|h|, i requires 0 <= i < |h| => store[h[i]])
  }

  /** A revision's counter after the n newest versions. */
  predicate Counted(field: string, gen: int, w: Want, vs: seq<Stored>, n: nat)
    requires n <= |vs|
  {
    field == w.field && gen == w.gen - Count(vs, w.field, n)
  }

  /** A selection after the n newest versions and some revisions' look at the next. */
  ghost predicate Filled(m: map<Component, string>, vs: seq<Stored>, ws: seq<Want>, looked: seq<Want>, n: nat)
    requires n < |vs|
  {
    forall c :: Get(m, c) == if SomePicks(vs, looked, c, n) then Get(vs[n].components, c) else Picked(vs, ws, c, n)
  }

  lemma OneMoreLooks(vs: seq<Stored>, ws: seq<Want>, k: nat, n: nat)
    requires k < |ws| && n < |vs|
    ensures forall c :: SomePicks(vs, ws[..k + 1], c, n) <==> SomePicks(vs, ws[..k], c, n) || Picks(vs, ws[k], c, n)
    ensures AllMet(vs, ws[..k + 1], n + 1) <==> AllMet(vs, ws[..k], n + 1) && ws[k].gen == Count(vs, ws[k].field, n + 1)
  {
    assert ws[..k + 1] == ws[..k] + [ws[k]];
    forall c ensures SomePicks(vs, ws[..k + 1], c, n) <==> SomePicks(vs, ws[..k], c, n) || Picks(vs, ws[k], c, n) {
      if Picks(vs, ws[k], c, n) { assert ws[k] in ws[..k + 1]; }
    }
    assert ws[k] in ws[..k + 1];
  }

  /** sel fills in what its revision picks. */
  lemma SelFills(vs: seq<Stored>, ws: seq<Want>, k: nat, n: nat, field: string, gen: int,
                 before: map<Component, string>, after: map<Component, string>)
    requires k < |ws| && n < |vs| && Counted(field, gen, ws[k], vs, n + 1) && Filled(before, vs, ws, ws[..k], n)
    requires after == match PartOf(field)
                      case None => before
                      case Some(c) =>
                        if c in vs[n].components && gen == 0 then before[c := vs[n].components[c]] else before
    ensures Filled(after, vs, ws, ws[..k + 1], n)
  {
    OneMoreLooks(vs, ws, k, n);
    forall c ensures Get(after, c) == if Picks(vs, ws[k], c, n) then Get(vs[n].components, c) else Get(before, c) {}
  }

  ghost predicate AllCounted(revs: seq<Rev>, ws: seq<Want>, vs: seq<Stored>, n: nat)
    requires |ws| == |revs| && n <= |vs|
    reads revs
  {
    forall i :: 0 <= i < |revs| ==> IsCounted(revs[i], ws[i], vs, n)
  }

  predicate IsCounted(r: Rev, w: Want, vs: seq<Stored>, n: nat)
    requires n <= |vs|
    reads r
  {
    Counted(r.field, r.gen, w, vs, n)
  }

  lemma CountsOne(field: string, gen: int, after: int, w: Want, vs: seq<Stored>, n: nat)
    requires n < |vs| && Counted(field, gen, w, vs, n) && after == gen - if Has(vs[n], field) then 1 else 0
    ensures Counted(field, after, w, vs, n + 1)
  {
  }

  /** A selection after the n newest versions. */
  ghost predicate FilledTo(m: map<Component, string>, vs: seq<Stored>, ws: seq<Want>, n: nat)
    requires n <= |vs|
  {
    forall c :: Get(m, c) == Picked(vs, ws, c, n)
  }

  /** Counters and selection after the n newest versions. */
  ghost predicate Progress(revs: seq<Rev>, res: Selection, vs: seq<Stored>, ws: seq<Want>, n: nat)
    reads revs, res
  {
    |ws| == |revs| && n <= |vs| && AllCounted(revs, ws, vs, n) && FilledTo(res.components, vs, ws, n)
  }

  lemma RoundEnds(vs: seq<Stored>, ws: seq<Want>, m: map<Component, string>, n: nat)
    requires n < |vs| && Filled(m, vs, ws, ws[..|ws|], n)
    ensures FilledTo(m, vs, ws, n + 1)
  {
    assert ws[..|ws|] == ws;
  }

  /** The loop over the revisions, for the version after the n newest. */
  method SelectAll(revs: seq<Rev>, v: Stored, res: Selection, ghost vs: seq<Stored>, ghost ws: seq<Want>, ghost n: nat)
    returns (done: bool)
    requires Distinct(revs) && n < |vs| && vs[n] == v
    requires Progress(revs, res, vs, ws, n)
    modifies revs, res
    ensures Progress(revs, res, vs, ws, n + 1)
    ensures done <==> AllMet(vs, ws, n + 1)
  {
    done := true;
    for k := 0 to |revs|
      invariant forall i :: 0 <= i < k ==> IsCounted(revs[i], ws[i], vs, n + 1)
      invariant forall i :: k <= i < |revs| ==> IsCounted(revs[i], ws[i], vs, n)
      invariant Filled(res.components, vs, ws, ws[..k], n)
      invariant done <==> AllMet(vs, ws[..k], n + 1)
    {
      ghost var before, gen := res.components, revs[k].gen;
      var met := Sel(revs[k], v, res);
      CountsOne(revs[k].field, gen, revs[k].gen, ws[k], vs, n);
      if !met && done {
        done := false;
      }
      SelFills(vs, ws, k, n, revs[k].field, revs[k].gen, before, res.components);
      OneMoreLooks(vs, ws, k, n);
    }
    RoundEnds(vs, ws, res.components, n);
    assert ws[..|revs|] == ws;
  }

  ghost predicate NoneMet(vs: seq<Stored>, ws: seq<Want>, n: nat)
    requires n <= |vs|
  {
    forall m :: 0 < m <= n ==> !AllMet(vs, ws, m)
  }

  /** LoadRevs: walks back from path until every counter is at zero, the chain ends, or a version
    * cannot be loaded. */
  method LoadRevs(store: Store, from: string, revs: seq<Rev>, ghost depth: string -> nat) returns (res: Selection, failed: bool)
    requires Ranked(store, depth) && Distinct(revs)
    modifies revs
    ensures fresh(res)
    ensures var vs, ws := Versions(store, depth, from), old(WantsOf(revs));
            Loaded(res.components, vs, ws, Complete(store, depth, from), failed)
  {
    ghost var vs, ws := Versions(store, depth, from), WantsOf(revs);
    res := new Selection();
    var path := from;
    ghost var n := 0;
    assert vs[0..] == vs;
    while true
      invariant fresh(res) && WalkedTo(store, depth, from, path, vs, n)
      invariant Progress(revs, res, vs, ws, n) && NoneMet(vs, ws, n)
      decreases depth(path)
    {
      WalkOn(store, depth, from, path, vs, n);
      if path !in store {
        ReadsAll(revs, res, vs, ws, false);
        return res, true;
      }
      var ds := store[path];
      var done := SelectAll(revs, ds, res, vs, ws, n);
      n := n + 1;
      if done {
        StopsEarly(revs, res, vs, ws, n, Complete(store, depth, from));
        break;
      }
      NoneMetYet(vs, ws, n);
      path := ds.previousPath;
      if path == "" {
        ReadsAll(revs, res, vs, ws, true);
        break;
      }
    }
    return res, false;
  }

  /** The walk has read the n newest versions and is at a path. */
  ghost predicate WalkedTo(store: Store, depth: string -> nat, from: string, path: string, vs: seq<Stored>, n: nat)
    requires Ranked(store, depth)
  {
    n <= |vs| && vs[n..] == Versions(store, depth, path) && (Complete(store, depth, from) <==> Complete(store, depth, path))
  }

  /** Where the walk goes from there. */
  lemma WalkOn(store: Store, depth: string -> nat, from: string, path: string, vs: seq<Stored>, n: nat)
    requires Ranked(store, depth) && WalkedTo(store, depth, from, path, vs, n)
    ensures if path !in store then n == |vs| && !Complete(store, depth, from)
            else
              var prev := store[path].previousPath;
              n < |vs| && vs[n] == store[path] &&
              if prev == "" then n + 1 == |vs| && Complete(store, depth, from)
              else WalkedTo(store, depth, from, prev, vs, n + 1) && depth(prev) < depth(path)
  {
    if path in store {
      var prev := store[path].previousPath;
      VersionsStep(store, depth, path);
      Behind(vs, n, store[path], if prev == "" then [] else Versions(store, depth, prev));
    } else {
      assert |vs[n..]| == 0;
    }
  }

  lemma VersionsStep(store: Store, depth: string -> nat, path: string)
    requires Ranked(store, depth) && path in store
    ensures var v := store[path];
            Versions(store, depth, path) == [v] + if v.previousPath == "" then [] else Versions(store, depth, v.previousPath)
  {
  }

  lemma Behind(vs: seq<Stored>, n: nat, v: Stored, rest: seq<Stored>)
    requires n <= |vs| && vs[n..] == [v] + rest
    ensures n < |vs| && vs[n] == v && vs[n + 1..] == rest
  {
    assert vs[n] == vs[n..][0];
    assert vs[n + 1..] == vs[n..][1..];
  }

  /** Once every counter has been at zero nothing more is picked: stopping early loses nothing. */
  lemma {:induction false} NothingAfterAllMet(vs: seq<Stored>, ws: seq<Want>, n: nat, m: nat)
    requires n <= m <= |vs| && AllMet(vs, ws, n)
    ensures forall c :: Picked(vs, ws, c, m) == Picked(vs, ws, c, n)
  {
    if n < m {
      var k := m - 1;
      NothingAfterAllMet(vs, ws, n, k);
      forall c, w | w in ws ensures !Picks(vs, w, c, k) {
        CountGrows(vs, w.field, n, k);
      }
    }
  }

  /** What LoadRevs gives for the versions it can load: everything they hold, unless it fails for want
    * of one more while some counter has not been at zero with all the others. */
  ghost predicate Loaded(m: map<Component, string>, vs: seq<Stored>, ws: seq<Want>, complete: bool, failed: bool) {
    FilledTo(m, vs, ws, |vs|) && (failed <==> !complete && NoneMet(vs, ws, |vs|))
  }

  lemma StopsEarly(revs: seq<Rev>, res: Selection, vs: seq<Stored>, ws: seq<Want>, n: nat, complete: bool)
    requires 0 < n <= |vs| && AllMet(vs, ws, n) && Progress(revs, res, vs, ws, n)
    ensures Loaded(res.components, vs, ws, complete, false)
  {
    NothingAfterAllMet(vs, ws, n, |vs|);
  }

  lemma NoneMetYet(vs: seq<Stored>, ws: seq<Want>, n: nat)
    requires 0 < n <= |vs| && NoneMet(vs, ws, n - 1) && !AllMet(vs, ws, n)
    ensures NoneMet(vs, ws, n)
  {
  }

  lemma ReadsAll(revs: seq<Rev>, res: Selection, vs: seq<Stored>, ws: seq<Want>, complete: bool)
    requires Progress(revs, res, vs, ws, |vs|) && (NoneMet(vs, ws, |vs|) || complete)
    ensures Loaded(res.components, vs, ws, complete, !complete)
  {
  }

  lemma {:induction false} CountGrows(vs: seq<Stored>, field: string, n: nat, m: nat)
    requires n <= m <= |vs|
    ensures Count(vs, field, n) <= Count(vs, field, m)
  {
    if n < m { CountGrows(vs, field, n, m - 1); }
  }

  // ---- the names of fields ----

  /** fieldMap: the field a revision is written as, by its long or its short name. */
  function FieldOf(rev: string): Option<string> {
    if rev == "dataset" || rev == "ds" then Some("ds") else if rev == "meta" || rev == "md" then Some("md")
    else if rev == "viz" || rev == "vz" then Some("vz") else if rev == "transform" || rev == "tf" then Some("tf")
    else if rev == "structure" || rev == "st" then Some("st") else if rev == "body" || rev == "bd" then Some("bd")
    else if rev == "rendered" || rev == "rd" then Some("rd") else if rev == "readme" || rev == "rm" then Some("rm") else None
  }

  function ComponentName(c: Component): string {
    match c
    case Body => "body" case Meta => "meta" case Transform => "transform" case CommitInfo => "commit"
    case Viz => "viz" case Readme => "readme" case Structure => "structure"
  }

  /** Asking for a component by its name selects that component; the commit cannot be asked for so, and
    * the whole dataset and the rendered one select none. */
  lemma NamesSelect(c: Component)
    ensures c != CommitInfo ==> FieldOf(ComponentName(c)).Some? && PartOf(FieldOf(ComponentName(c)).value) == Some(c)
    ensures FieldOf(ComponentName(CommitInfo)) == None && PartOf("cm") == Some(CommitInfo)
    ensures FieldOf("dataset") == Some("ds") && PartOf("ds") == None
    ensures FieldOf("rendered") == Some("rd") && PartOf("rd") == None
  {
  }

  /** A component asked for by its name alone is that of the newest version that has it. */
  lemma NameSelectsNewest(vs: seq<Stored>, c: Component, j: nat)
    requires c != CommitInfo && j < |vs| && c in vs[j].components && forall k :: 0 <= k < j ==> c !in vs[k].components
    ensures FieldOf(ComponentName(c)).Some?
    ensures Picked(vs, [Want(FieldOf(ComponentName(c)).value, 1)], c, |vs|) == Some(vs[j].components[c])
  {
    NamesSelect(c);
    var w := Want(FieldOf(ComponentName(c)).value, 1);
    NoneBefore(vs, w.field, c, j);
    EachPicksItsGeneration(vs, [w], 0, c);
    assert IsGeneration(vs, w.field, c, 1, j);
  }

  lemma {:induction false} NoneBefore(vs: seq<Stored>, field: string, c: Component, n: nat)
    requires n <= |vs| && PartOf(field) == Some(c) && forall k :: 0 <= k < n ==> c !in vs[k].components
    ensures Count(vs, field, n) == 0
  {
    if n > 0 { NoneBefore(vs, field, c, n - 1); }
  }

  // ---- revisions for different components ----

  /** No two revisions name one component. */
  ghost predicate OneEach(ws: seq<Want>) {
    forall i, j :: 0 <= i < j < |ws| && PartOf(ws[i].field).Some? ==> PartOf(ws[i].field) != PartOf(ws[j].field)
  }

  /** Version j is the gen-th, newest first, that has component c. */
  predicate IsGeneration(vs: seq<Stored>, field: string, c: Component, gen: int, j: nat)
    requires j < |vs|
  {
    c in vs[j].components && gen == Count(vs, field, j + 1)
  }

  /** Among revisions for different components, each picks the component of the gen-th version that has
    * it; it picks nothing exactly when fewer versions do, or the generation is not positive. */
  lemma EachPicksItsGeneration(vs: seq<Stored>, ws: seq<Want>, i: nat, c: Component)
    requires OneEach(ws) && i < |ws| && PartOf(ws[i].field) == Some(c)
    ensures var (field, gen, picked) := (ws[i].field, ws[i].gen, Picked(vs, ws, c, |vs|));
            && (forall j :: 0 <= j < |vs| && IsGeneration(vs, field, c, gen, j) ==> picked == Some(vs[j].components[c]))
            && (picked.None? <==> gen < 1 || Count(vs, field, |vs|) < gen)
  {
    EachPicks(vs, ws, i, c, |vs|);
  }

  lemma {:induction false} EachPicks(vs: seq<Stored>, ws: seq<Want>, i: nat, c: Component, n: nat)
    requires OneEach(ws) && i < |ws| && PartOf(ws[i].field) == Some(c) && n <= |vs|
    ensures var (field, gen, picked) := (ws[i].field, ws[i].gen, Picked(vs, ws, c, n));
            && (forall j :: 0 <= j < n && IsGeneration(vs, field, c, gen, j) ==> picked == Some(vs[j].components[c]))
            && (picked.None? <==> gen < 1 || Count(vs, field, n) < gen)
  {
    if n > 0 {
      EachPicks(vs, ws, i, c, n - 1);
      var w := ws[i];
      assert SomePicks(vs, ws, c, n - 1) <==> Picks(vs, w, c, n - 1) by {
        forall w' | w' in ws && Picks(vs, w', c, n - 1) ensures w' == w {
          var k :| 0 <= k < |ws| && ws[k] == w';
        }
      }
      if Picks(vs, w, c, n - 1) {
        forall j | 0 <= j < n - 1 ensures !IsGeneration(vs, w.field, c, w.gen, j) { CountGrows(vs, w.field, j + 1, n - 1); }
      }
    }
  }

  /** A component no revision names is never set. */
  lemma {:induction false} OthersStayUnset(vs: seq<Stored>, ws: seq<Want>, c: Component, n: nat)
    requires n <= |vs| && forall w :: w in ws ==> PartOf(w.field) != Some(c)
    ensures Picked(vs, ws, c, n).None?
  {
    if n > 0 { OthersStayUnset(vs, ws, c, n - 1); }
  }
}
