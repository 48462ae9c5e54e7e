/** latestSavePath: the backward scan the logbook resolver uses to find a dataset's head, against
  * the forward stack replay (logbook/logbook.go). */
module LatestPath {
  import opened Prelude
  import opened OpLog

  method LatestSavePathScan(ops: seq<Op>) returns (path: string)
    ensures path == LatestSavePath(ops)
  {
    var removes := 0;
    var i := |ops| - 1;
    assert ops[..|ops|] == ops;
    while i >= 0
      invariant -1 <= i < |ops|
      invariant LatestScan(ops[..i + 1], removes) == LatestSavePath(ops)
    {
      var op := ops[i];
      assert ops[..i + 1][..i] == ops[..i];
      if op.model == CommitModel {
        match op.typ {
          case Remove =>
            removes := removes + op.size;
          case _ =>
            if removes > 0 {
              removes := removes - 1;
            }
            if removes == 0 {
              return op.ref;
            }
        }
      }
      i := i - 1;
    }
    path := "";
  }

  predicate AmendFree(ops: seq<Op>) {
    forall op | op in ops :: !IsAmend(op)
  }

  /** Versions removed since the last save or amend. */
  function TrailingRemoves(ops: seq<Op>): int {
    if ops == [] || IsSave(ops[|ops| - 1]) || IsAmend(ops[|ops| - 1]) then 0
    else
      (if IsCommitRemove(ops[|ops| - 1]) then ops[|ops| - 1].size else 0)
      + TrailingRemoves(ops[..|ops| - 1])
  }

  /** The log without the ops that follow its last save or amend. */
  function UpToLastSave(ops: seq<Op>): seq<Op> {
    if ops == [] || IsSave(ops[|ops| - 1]) || IsAmend(ops[|ops| - 1]) then ops
    else UpToLastSave(ops[..|ops| - 1])
  }

  function Top(ps: seq<string>): string { if ps == [] then "" else ps[|ps| - 1] }

  /** With c removals pending the scan returns the c-th live version from the top. */
  lemma {:induction false} ScanFindsStackElement(ops: seq<Op>, c: int)
    requires WellFormed(ops) && AmendFree(ops) && 1 <= c
    ensures PathStack(ops).Some?
    ensures var live := PathStack(ops).value;
            LatestScan(ops, c) == if c <= |live| then live[|live| - c] else ""
  {
    WellFormedStack(ops);
    if ops != [] {
      var rest, op := ops[..|ops| - 1], ops[|ops| - 1];
      assert op in ops;
      if IsSave(op) {
        if c > 1 { ScanFindsStackElement(rest, c - 1); }
      } else if IsCommitRemove(op) {
        ScanFindsStackElement(rest, c + op.size);
      } else {
        ScanFindsStackElement(rest, c);
      }
    }
  }

  lemma {:induction false} TrailingBounds(ops: seq<Op>)
    requires WellFormed(ops)
    ensures PathStack(ops).Some? && PathStack(UpToLastSave(ops)).Some?
    ensures 0 <= TrailingRemoves(ops)
    ensures var before := PathStack(UpToLastSave(ops)).value;
            && TrailingRemoves(ops) <= |before|
            && PathStack(ops).value == before[..|before| - TrailingRemoves(ops)]
    ensures UpToLastSave(ops) <= ops && WellFormed(UpToLastSave(ops))
  {
    WellFormedStack(ops);
    if ops == [] || IsSave(ops[|ops| - 1]) || IsAmend(ops[|ops| - 1]) {
    } else {
      TrailingBounds(ops[..|ops| - 1]);
    }
  }

  lemma {:induction false} ScanSkipsTrailing(ops: seq<Op>, c: int)
    requires WellFormed(ops) && 0 <= c
    ensures LatestScan(ops, c) == LatestScan(UpToLastSave(ops), c + TrailingRemoves(ops))
  {
    if ops == [] || IsSave(ops[|ops| - 1]) || IsAmend(ops[|ops| - 1]) {
    } else if IsCommitRemove(ops[|ops| - 1]) {
      ScanSkipsTrailing(ops[..|ops| - 1], c + ops[|ops| - 1].size);
    } else {
      ScanSkipsTrailing(ops[..|ops| - 1], c);
    }
  }

  /** What the scan returns on every amend-free log: the newest live version when no removal is
    * pending, otherwise the deepest of the versions just removed. */
  lemma LatestSavePathValue(ops: seq<Op>)
    requires WellFormed(ops) && AmendFree(ops)
    ensures PathStack(ops).Some? && PathStack(UpToLastSave(ops)).Some?
    ensures var live, before, t := PathStack(ops).value, PathStack(UpToLastSave(ops)).value, TrailingRemoves(ops);
            && 0 <= t <= |before| && live == before[..|before| - t]
            && LatestSavePath(ops) == if t == 0 then Top(live) else before[|live|]
  {
    TrailingBounds(ops);
    if TrailingRemoves(ops) > 0 {
      ScanWithPending(ops);
    } else {
      ScanWithoutPending(ops);
    }
  }

  lemma ScanWithPending(ops: seq<Op>)
    requires WellFormed(ops) && AmendFree(ops) && TrailingRemoves(ops) > 0
    ensures PathStack(ops).Some? && PathStack(UpToLastSave(ops)).Some?
    ensures LiveCount(ops) < |PathStack(UpToLastSave(ops)).value|
    ensures LatestSavePath(ops) == PathStack(UpToLastSave(ops)).value[LiveCount(ops)]
  {
    TrailingBounds(ops);
    ScanSkipsTrailing(ops, 0);
    AmendFreePrefix(ops, UpToLastSave(ops));
    ScanFindsStackElement(UpToLastSave(ops), TrailingRemoves(ops));
  }

  lemma ScanWithoutPending(ops: seq<Op>)
    requires WellFormed(ops) && TrailingRemoves(ops) == 0
    ensures PathStack(ops).Some? && LatestSavePath(ops) == Top(PathStack(ops).value)
  {
    TrailingBounds(ops);
    ScanSkipsTrailing(ops, 0);
    EndsWithSave(ops);
    TopOfSaved(UpToLastSave(ops));
    WholePrefix(PathStack(UpToLastSave(ops)).value);
  }

  lemma AmendFreePrefix(ops: seq<Op>, prefix: seq<Op>)
    requires AmendFree(ops) && prefix <= ops
    ensures AmendFree(prefix)
  {
    forall op | op in prefix ensures op in ops {
      var i :| 0 <= i < |prefix| && prefix[i] == op;
      assert ops[i] == op;
    }
  }

  lemma WholePrefix(ps: seq<string>)
    ensures ps[..|ps| - 0] == ps
  {
  }

  lemma TopOfSaved(ops: seq<Op>)
    requires WellFormed(ops) && (ops == [] || IsSave(ops[|ops| - 1]) || IsAmend(ops[|ops| - 1]))
    ensures PathStack(ops).Some? && LatestScan(ops, 0) == Top(PathStack(ops).value)
  {
    WellFormedStack(ops);
  }

  lemma {:induction false} EndsWithSave(ops: seq<Op>)
    ensures var saved := UpToLastSave(ops);
            saved == [] || IsSave(saved[|saved| - 1]) || IsAmend(saved[|saved| - 1])
  {
    if ops == [] || IsSave(ops[|ops| - 1]) || IsAmend(ops[|ops| - 1]) {
    } else {
      EndsWithSave(ops[..|ops| - 1]);
    }
  }

  // ---- exactly when the scan is right, amends included ----

  /** The stack replay with, in place of each path, the index of the op that wrote it. */
  ghost function IndexStack(ops: seq<Op>): seq<int>
    requires WellFormed(ops)
    ensures PathStack(ops).Some? && |IndexStack(ops)| == |PathStack(ops).value|
    ensures forall k :: 0 <= k < |IndexStack(ops)| ==>
              0 <= IndexStack(ops)[k] < |ops| && ops[IndexStack(ops)[k]].ref == PathStack(ops).value[k]
  {
    if ops == [] then []
    else
      var rest, op, i := ops[..|ops| - 1], ops[|ops| - 1], |ops| - 1;
      var below := IndexStack(rest);
      if IsSave(op) then below + [i]
      else if IsAmend(op) then below[..|below| - 1] + [i]
      else if IsCommitRemove(op) then below[..|below| - op.size]
      else below
  }

  /** The index of the op the scan stops at, -1 when it runs off the front of the log. */
  ghost function ScanIndex(ops: seq<Op>, removes: int): (i: int)
    ensures -1 <= i < |ops|
    ensures LatestScan(ops, removes) == if i == -1 then "" else ops[i].ref
    ensures i != -1 ==> IsSave(ops[i]) || IsAmend(ops[i])
  {
    if ops == [] then -1
    else
      var rest, op := ops[..|ops| - 1], ops[|ops| - 1];
      if op.model != CommitModel then ScanIndex(rest, removes)
      else if op.typ == Remove then ScanIndex(rest, removes + op.size)
      else
        var left := if removes > 0 then removes - 1 else removes;
        if left == 0 then |ops| - 1 else ScanIndex(rest, left)
  }

  /** With c removals pending the scan stops strictly after every op that stays live below them. */
  lemma {:induction false} ScanStopsAboveLive(ops: seq<Op>, c: int)
    requires WellFormed(ops) && 1 <= c <= LiveCount(ops)
    ensures ScanIndex(ops, c) >= 0
    ensures forall k :: 0 <= k < LiveCount(ops) - c ==> k < |IndexStack(ops)| && IndexStack(ops)[k] < ScanIndex(ops, c)
  {
    WellFormedStack(ops);
    var rest, op := ops[..|ops| - 1], ops[|ops| - 1];
    WellFormedStack(rest);
    var live, below := IndexStack(ops), IndexStack(rest);
    if (IsSave(op) || IsAmend(op)) && c == 1 {
      assert ScanIndex(ops, c) == |ops| - 1;
      assert forall k :: 0 <= k < |live| - 1 ==> live[k] == below[k];
    } else {
      var c' := if IsSave(op) || IsAmend(op) then c - 1 else if IsCommitRemove(op) then c + op.size else c;
      assert ScanIndex(ops, c) == ScanIndex(rest, c');
      ScanStopsAboveLive(rest, c');
      assert |live| - c <= |below| - c' + 1 && (!IsAmend(op) ==> |live| - c == |below| - c');
      assert forall k :: 0 <= k < |live| - c ==> live[k] == below[k];
    }
  }

  /** Saves and amends write non-empty paths, each path once. */
  ghost predicate DistinctPaths(ops: seq<Op>) {
    && (forall i :: 0 <= i < |ops| && (IsSave(ops[i]) || IsAmend(ops[i])) ==> ops[i].ref != "")
    && (forall i, j :: 0 <= i < j < |ops| && (IsSave(ops[i]) || IsAmend(ops[i])) && (IsSave(ops[j]) || IsAmend(ops[j]))
          ==> ops[i].ref != ops[j].ref)
  }

  lemma {:induction false} IndexStackWrites(ops: seq<Op>)
    requires WellFormed(ops)
    ensures forall k :: 0 <= k < |IndexStack(ops)| ==>
              var op := ops[IndexStack(ops)[k]]; IsSave(op) || IsAmend(op)
  {
    if ops != [] {
      IndexStackWrites(ops[..|ops| - 1]);
    }
  }

  /** latestSavePath returns the newest live version exactly when nothing was removed since the
    * last save or amend: on every well-formed log, amends included. */
  lemma {:induction false} LatestSavePathCorrectIff(ops: seq<Op>)
    requires WellFormed(ops) && DistinctPaths(ops)
    ensures PathStack(ops).Some?
    ensures LatestSavePath(ops) == Top(PathStack(ops).value) <==> TrailingRemoves(ops) == 0
  {
    WellFormedStack(ops);
    if ops != [] {
      var rest, op := ops[..|ops| - 1], ops[|ops| - 1];
      WellFormedStack(rest);
      if IsSave(op) || IsAmend(op) {
      } else {
        assert DistinctPaths(rest);
        if IsCommitRemove(op) && op.size > 0 {
          TrailingBounds(rest);
          ScanStopsAboveLive(rest, op.size);
          IndexStackWrites(rest);
          var i, live := ScanIndex(rest, op.size), IndexStack(rest);
          if op.size < |live| {
            var top := live[|live| - op.size - 1];
            assert top < i;
            assert ops[top] == rest[top] && ops[i] == rest[i];
          }
        } else {
          LatestSavePathCorrectIff(rest);
        }
      }
    }
  }
}
