/** Reference resolvers composed in parallel and in sequence (dsref/resolve.go). The parallel one is a state
  * machine: its goroutines finish in any order, each sends its outcome on a channel that holds none, and
  * the resolver receives until it can return. */
module Resolvers {
  import opened Prelude
  import opened DsRef

  datatype Err = Fine | NotFound | Hard(message: string)

  /** What a call of ResolveRef leaves in the reference, and what it returns. */
  datatype Outcome = Outcome(ref: Ref, source: string, err: Err)

  /** A resolver; None is a nil resolver. */
  type Resolver = Option<Ref -> Outcome>

  /** What a resolver makes of a reference; a nil one finds nothing. */
  function OutcomeOf(r: Resolver, ref: Ref): Outcome {
    match r case None => Outcome(ref, "", NotFound) case Some(resolve) => resolve(ref)
  }

  // ---- in parallel ----

  /** A goroutine: about to copy the reference, resolving its copy, blocked on a send, or done. */
  datatype Task = Starting | Resolving(copy: Ref) | Responding(ref: Ref, source: string) | Failing(err: Err) | Received

  /** The caller's reference, the goroutines, the attempts left and what ResolveRef has returned. */
  datatype State = State(ref: Ref, tasks: seq<Task>, attempts: int, returned: Option<(string, Err)>)

  function Started(rs: seq<Resolver>, ref: Ref): State {
    State(ref, seq(|rs|, i requires 0 <= i < |rs| => Starting), |rs|, None)
  }

  /** A goroutine acts, or the loop receives what one sends. */
  datatype Step = Act(i: nat) | Receive(i: nat)

  function ActOf(s: State, r: Resolver, task: Task): Option<Task> {
    match task
    case Starting => Some(if r.None? then Failing(NotFound) else Resolving(s.ref))
    case Resolving(copy) =>
      var o := OutcomeOf(r, copy);
      Some(if o.err != Fine then Failing(o.err) else Responding(o.ref, o.source))
    case _ => None
  }

  /** The state after a step; None when the step is not possible. */
  function After(rs: seq<Resolver>, s: State, step: Step): Option<State> {
    var i := step.i;
    if i >= |s.tasks| || |rs| != |s.tasks| then None
    else
      match step
      case Act(_) =>
        (match ActOf(s, rs[i], s.tasks[i])
         case None => None
         case Some(next) => Some(s.(tasks := s.tasks[i := next])))
      case Receive(_) =>
        if s.returned.Some? then None
        else
          var done := s.(tasks := s.tasks[i := Received]);
          match s.tasks[i]
          case Responding(ref, source) => Some(done.(ref := ref, returned := Some((source, Fine))))
          case Failing(err) =>
            var left := s.attempts - 1;
            Some(done.(attempts := left,
                       returned := if err != NotFound then Some(("", err))
                                   else if left == 0 then Some(("", NotFound)) else None))
          case _ => None
  }

  function Ran(rs: seq<Resolver>, ref: Ref, steps: seq<Step>): Option<State> {
    if steps == [] then Some(Started(rs, ref))
    else
      match Ran(rs, ref, steps[..|steps| - 1])
      case None => None
      case Some(s) => After(rs, s, steps[|steps| - 1])
  }

  // ---- what every schedule keeps ----

  /** A task has, or has sent, what its resolver makes of the reference first given. */
  predicate Right(r: Resolver, ref: Ref, task: Task) {
    var o := OutcomeOf(r, ref);
    match task
    case Starting => true
    case Resolving(copy) => r.Some? && copy == ref
    case Responding(out, source) => o == Outcome(out, source, Fine)
    case Failing(err) => err != Fine && o.err == err
    case Received => o.err == NotFound
  }

  function Pending(tasks: seq<Task>): nat {
    if tasks == [] then 0 else Pending(tasks[..|tasks| - 1]) + if tasks[|tasks| - 1].Received? then 0 else 1
  }

  /** What ResolveRef may leave and return. */
  ghost predicate Allowed(rs: seq<Resolver>, ref: Ref, out: Ref, source: string, err: Err) {
    match err
    case Fine => exists i :: 0 <= i < |rs| && OutcomeOf(rs[i], ref) == Outcome(out, source, Fine)
    case NotFound => out == ref && source == "" && forall i :: 0 <= i < |rs| ==> OutcomeOf(rs[i], ref).err == NotFound
    case Hard(_) => out == ref && source == "" && exists i :: 0 <= i < |rs| && OutcomeOf(rs[i], ref).err == err
  }

  ghost predicate Inv(rs: seq<Resolver>, ref: Ref, s: State) {
    && |s.tasks| == |rs|
    && match s.returned
       case None =>
         s.ref == ref && s.attempts == Pending(s.tasks) && (|rs| > 0 ==> s.attempts > 0) && forall i :: 0 <= i < |rs| ==> Right(rs[i], ref, s.tasks[i])
       case Some((source, err)) => Allowed(rs, ref, s.ref, source, err)
  }

  lemma {:induction false} PendingUpdated(tasks: seq<Task>, i: nat, task: Task)
    requires i < |tasks| && !tasks[i].Received?
    ensures Pending(tasks[i := task]) == Pending(tasks) - if task.Received? then 1 else 0
  {
    var n := |tasks| - 1;
    if i == n {
      assert tasks[i := task][..n] == tasks[..n];
    } else {
      assert tasks[i := task][..n] == tasks[..n][i := task];
      PendingUpdated(tasks[..n], i, task);
    }
  }

  lemma {:induction false} NonePending(tasks: seq<Task>)
    requires Pending(tasks) == 0
    ensures forall i :: 0 <= i < |tasks| ==> tasks[i].Received?
  {
    if tasks != [] { NonePending(tasks[..|tasks| - 1]); }
  }

  lemma StepKeeps(rs: seq<Resolver>, ref: Ref, s: State, step: Step)
    requires Inv(rs, ref, s) && After(rs, s, step).Some?
    ensures Inv(rs, ref, After(rs, s, step).value)
  {
    var after, i := After(rs, s, step).value, step.i;
    if s.returned.None? {
      assert Right(rs[i], ref, s.tasks[i]);
      PendingUpdated(s.tasks, i, after.tasks[i]);
      if after.attempts == 0 {
        NonePending(after.tasks);
        forall k | 0 <= k < |rs| && k != i ensures OutcomeOf(rs[k], ref).err == NotFound {
          assert Right(rs[k], ref, s.tasks[k]) && after.tasks[k] == s.tasks[k];
        }
      }
    }
  }

  lemma {:induction false} RunsKeep(rs: seq<Resolver>, ref: Ref, steps: seq<Step>)
    requires Ran(rs, ref, steps).Some?
    ensures Inv(rs, ref, Ran(rs, ref, steps).value)
  {
    if steps == [] {
      AllPending(rs, ref, |rs|);
    } else {
      RunsKeep(rs, ref, steps[..|steps| - 1]);
      StepKeeps(rs, ref, Ran(rs, ref, steps[..|steps| - 1]).value, steps[|steps| - 1]);
    }
  }

  lemma {:induction false} AllPending(rs: seq<Resolver>, ref: Ref, n: nat)
    requires n <= |rs|
    ensures Pending(Started(rs, ref).tasks[..n]) == n && Started(rs, ref).tasks[..|rs|] == Started(rs, ref).tasks
  {
    if n > 0 {
      AllPending(rs, ref, n - 1);
      assert Started(rs, ref).tasks[..n][..n - 1] == Started(rs, ref).tasks[..n - 1];
    }
  }

  /** The schedules after which ResolveRef has returned this, with this in the caller's reference. */
  ghost predicate CanReturn(rs: seq<Resolver>, ref: Ref, out: Ref, source: string, err: Err) {
    exists steps :: Returns(Ran(rs, ref, steps), out, source, err)
  }

  ghost predicate Returns(s: Option<State>, out: Ref, source: string, err: Err) {
    s.Some? && s.value.ref == out && s.value.returned == Some((source, err))
  }

  // ---- every allowed return is reached ----

  ghost predicate Reachable(rs: seq<Resolver>, ref: Ref, s: State) {
    exists steps :: Ran(rs, ref, steps) == Some(s)
  }

  lemma RanSnoc(rs: seq<Resolver>, ref: Ref, steps: seq<Step>, step: Step)
    ensures Ran(rs, ref, steps + [step]) ==
            match Ran(rs, ref, steps) case None => None case Some(s) => After(rs, s, step)
  {
    assert (steps + [step])[..|steps|] == steps;
  }

  lemma Reach(rs: seq<Resolver>, ref: Ref, s: State, step: Step, next: State)
    requires Reachable(rs, ref, s) && After(rs, s, step) == Some(next)
    ensures Reachable(rs, ref, next)
  {
    var steps :| Ran(rs, ref, steps) == Some(s);
    RanSnoc(rs, ref, steps, step);
  }

  /** What a goroutine sends. */
  function Sent(r: Resolver, ref: Ref): Task {
    var o := OutcomeOf(r, ref);
    if o.err == Fine then Responding(o.ref, o.source) else Failing(o.err)
  }

  /** A goroutine can always get to its send. */
  lemma GetsToSend(rs: seq<Resolver>, ref: Ref, s: State, i: nat)
    requires Reachable(rs, ref, s) && |s.tasks| == |rs| && i < |rs| && s.tasks[i] == Starting && s.ref == ref
    ensures Reachable(rs, ref, s.(tasks := s.tasks[i := Sent(rs[i], ref)]))
  {
    var sending := s.(tasks := s.tasks[i := Sent(rs[i], ref)]);
    if rs[i].None? {
      Reach(rs, ref, s, Act(i), sending);
    } else {
      var resolving := s.(tasks := s.tasks[i := Resolving(ref)]);
      Reach(rs, ref, s, Act(i), resolving);
      assert resolving.tasks[i := Sent(rs[i], ref)] == sending.tasks;
      Reach(rs, ref, resolving, Act(i), sending);
    }
  }

  /** The first n resolvers have been received, and found nothing. */
  function NotFoundTo(rs: seq<Resolver>, ref: Ref, n: nat): State
    requires n <= |rs|
  {
    State(ref, seq(|rs|, i requires 0 <= i < |rs| => if i < n then Received else Starting), |rs| - n,
          if n == |rs| && n > 0 then Some(("", NotFound)) else None)
  }

  lemma {:induction false} ReachesNotFound(rs: seq<Resolver>, ref: Ref, n: nat)
    requires n <= |rs| && forall i :: 0 <= i < n ==> OutcomeOf(rs[i], ref).err == NotFound
    ensures Reachable(rs, ref, NotFoundTo(rs, ref, n))
  {
    if n == 0 {
      assert NotFoundTo(rs, ref, 0) == Started(rs, ref);
      assert Ran(rs, ref, []) == Some(NotFoundTo(rs, ref, 0));
    } else {
      ReachesNotFound(rs, ref, n - 1);
      var before, after := NotFoundTo(rs, ref, n - 1), NotFoundTo(rs, ref, n);
      GetsToSend(rs, ref, before, n - 1);
      var sending := before.(tasks := before.tasks[n - 1 := Sent(rs[n - 1], ref)]);
      assert sending.tasks[n - 1 := Received] == after.tasks;
      Reach(rs, ref, sending, Receive(n - 1), after);
    }
  }

  lemma ReachesOne(rs: seq<Resolver>, ref: Ref, i: nat)
    requires i < |rs| && OutcomeOf(rs[i], ref).err != NotFound
    ensures var o := OutcomeOf(rs[i], ref);
            if o.err == Fine then CanReturn(rs, ref, o.ref, o.source, Fine) else CanReturn(rs, ref, ref, "", o.err)
  {
    var s, o := Started(rs, ref), OutcomeOf(rs[i], ref);
    assert Ran(rs, ref, []) == Some(s);
    GetsToSend(rs, ref, s, i);
    var sending := s.(tasks := s.tasks[i := Sent(rs[i], ref)]);
    var after := After(rs, sending, Receive(i)).value;
    Reach(rs, ref, sending, Receive(i), after);
    var steps :| Ran(rs, ref, steps) == Some(after);
    assert Returns(Ran(rs, ref, steps), after.ref, after.returned.value.0, after.returned.value.1);
  }

  /** Over every schedule ParallelResolver returns exactly: the reference and source of a resolver that
    * resolves the reference given, leaving that in the caller's reference; the hard error of one that
    * fails, with the reference untouched; or not-found, untouched too, when no resolver finds it. */
  lemma CanReturnIff(rs: seq<Resolver>, ref: Ref, out: Ref, source: string, err: Err)
    requires |rs| > 0
    ensures CanReturn(rs, ref, out, source, err) <==> Allowed(rs, ref, out, source, err)
  {
    if CanReturn(rs, ref, out, source, err) {
      var steps :| Returns(Ran(rs, ref, steps), out, source, err);
      RunsKeep(rs, ref, steps);
    }
    if Allowed(rs, ref, out, source, err) {
      if err == NotFound {
        ReachesNotFound(rs, ref, |rs|);
        var steps :| Ran(rs, ref, steps) == Some(NotFoundTo(rs, ref, |rs|));
        assert Returns(Ran(rs, ref, steps), out, source, err);
      } else {
        var i :| 0 <= i < |rs| && OutcomeOf(rs[i], ref).err == err && (err == Fine ==> OutcomeOf(rs[i], ref) == Outcome(out, source, Fine));
        ReachesOne(rs, ref, i);
      }
    }
  }

  /** Some schedule returns not-found exactly when no resolver finds the reference, and then all do. */
  lemma NotFoundIff(rs: seq<Resolver>, ref: Ref, out: Ref, source: string, err: Err)
    requires |rs| > 0 && CanReturn(rs, ref, out, source, err)
    ensures err == NotFound <==> forall i :: 0 <= i < |rs| ==> OutcomeOf(rs[i], ref).err == NotFound
  {
    CanReturnIff(rs, ref, out, source, err);
  }

  // ---- progress ----

  function Work(tasks: seq<Task>): nat {
    if tasks == [] then 0
    else Work(tasks[..|tasks| - 1]) +
         match tasks[|tasks| - 1]
         case Starting => 3 case Resolving(_) => 2 case Responding(_, _) => 1 case Failing(_) => 1 case Received => 0
  }

  lemma {:induction false} WorkUpdated(tasks: seq<Task>, i: nat, task: Task)
    requires i < |tasks| && Work([task]) < Work([tasks[i]])
    ensures Work(tasks[i := task]) < Work(tasks)
  {
    var n := |tasks| - 1;
    assert [task][..0] == [] && [tasks[i]][..0] == [];
    if i == n {
      assert tasks[i := task][..n] == tasks[..n];
    } else {
      assert tasks[i := task][..n] == tasks[..n][i := task];
      WorkUpdated(tasks[..n], i, task);
    }
  }

  /** Every step uses up work, so every schedule ends. */
  lemma StepWorks(rs: seq<Resolver>, s: State, step: Step)
    requires After(rs, s, step).Some?
    ensures Work(After(rs, s, step).value.tasks) < Work(s.tasks)
  {
    var after := After(rs, s, step).value;
    assert [after.tasks[step.i]][..0] == [] && [s.tasks[step.i]][..0] == [];
    WorkUpdated(s.tasks, step.i, after.tasks[step.i]);
  }

  /** No schedule gets stuck before ResolveRef has returned. */
  lemma NeverStuck(rs: seq<Resolver>, ref: Ref, steps: seq<Step>)
    requires |rs| > 0 && Ran(rs, ref, steps).Some? && Ran(rs, ref, steps).value.returned.None?
    ensures exists step :: After(rs, Ran(rs, ref, steps).value, step).Some?
  {
    RunsKeep(rs, ref, steps);
    var s := Ran(rs, ref, steps).value;
    SomePending(s.tasks);
    var i :| 0 <= i < |s.tasks| && !s.tasks[i].Received?;
    if s.tasks[i].Responding? || s.tasks[i].Failing? {
      assert After(rs, s, Receive(i)).Some?;
    } else {
      assert After(rs, s, Act(i)).Some?;
    }
  }

  lemma {:induction false} SomePending(tasks: seq<Task>)
    requires Pending(tasks) > 0
    ensures exists i :: 0 <= i < |tasks| && !tasks[i].Received?
  {
    var n := |tasks| - 1;
    if tasks[n].Received? {
      SomePending(tasks[..n]);
      var i :| 0 <= i < n && !tasks[..n][i].Received?;
      assert !tasks[i].Received?;
    }
  }

  // ---- in sequence ----

  /** The first resolver that does not return not-found decides; each is handed the reference as the
    * one before left it. */
  function InSequence(rs: seq<Resolver>, ref: Ref): Outcome {
    if rs == [] then Outcome(ref, "", NotFound)
    else
      var o := OutcomeOf(rs[0], ref);
      if o.err == NotFound then InSequence(rs[1..], o.ref)
      else Outcome(o.ref, if o.err == Fine then o.source else "", o.err)
  }

  method ResolveInSequence(rs: seq<Resolver>, given: Ref) returns (ref: Ref, source: string, err: Err)
    ensures Outcome(ref, source, err) == InSequence(rs, given)
  {
    ref := given;
    for i := 0 to |rs|
      invariant InSequence(rs, given) == InSequence(rs[i..], ref)
    {
      var resolver := rs[i];
      if resolver.None? { continue; }
      var o := resolver.value(ref);
      ref := o.ref;
      if o.err != Fine {
        if o.err == NotFound { continue; } else { return ref, "", o.err; }
      }
      return ref, o.source, Fine;
    }
    return ref, "", NotFound;
  }

  /** One resolver in sequence is that resolver; a nil one finds nothing. */
  lemma SequenceOfOne(r: Resolver, ref: Ref)
    ensures InSequence([r], ref) ==
            match r
            case None => Outcome(ref, "", NotFound)
            case Some(resolve) => var o := resolve(ref); Outcome(o.ref, if o.err == Fine then o.source else "", o.err)
  {
    assert [r][1..] == [];
  }

  /** Two sequences one after the other: the second is asked only when the first finds nothing, about the
    * reference as the first has left it. */
  lemma {:induction false} SequenceOfTwo(a: seq<Resolver>, b: seq<Resolver>, ref: Ref)
    ensures InSequence(a + b, ref) ==
            var o := InSequence(a, ref); if o.err == NotFound then InSequence(b, o.ref) else o
  {
    if a == [] {
      assert a + b == b;
    } else {
      assert (a + b)[1..] == a[1..] + b;
      SequenceOfTwo(a[1..], b, OutcomeOf(a[0], ref).ref);
    }
  }

  /** Resolvers that touch the reference on success alone, as their interface asks. */
  ghost predicate Polite(rs: seq<Resolver>, ref: Ref) {
    forall i :: 0 <= i < |rs| && OutcomeOf(rs[i], ref).err != Fine ==> OutcomeOf(rs[i], ref).ref == ref
  }

  /** What SequentialResolver returns is what its first resolver that does not return not-found makes of
    * the reference given, and a return that ParallelResolver allows too. */
  lemma {:induction false} SequenceIsFirst(rs: seq<Resolver>, ref: Ref)
    requires Polite(rs, ref)
    ensures var o := InSequence(rs, ref);
            && Allowed(rs, ref, o.ref, o.source, o.err)
            && forall i :: 0 <= i < |rs| && OutcomeOf(rs[i], ref).err != NotFound &&
                           (forall k :: 0 <= k < i ==> OutcomeOf(rs[k], ref).err == NotFound) ==>
                 o.err == OutcomeOf(rs[i], ref).err && o.ref == OutcomeOf(rs[i], ref).ref &&
                 (o.err == Fine ==> o.source == OutcomeOf(rs[i], ref).source)
  {
    if rs != [] && OutcomeOf(rs[0], ref).err == NotFound {
      var rest := rs[1..];
      assert forall k :: 0 < k < |rs| ==> rs[k] == rest[k - 1];
      SequenceIsFirst(rest, ref);
      var o := InSequence(rest, ref);
      AllowedByRest(rs, rest, ref, o);
    }
  }

  lemma AllowedByRest(rs: seq<Resolver>, rest: seq<Resolver>, ref: Ref, o: Outcome)
    requires rs != [] && rest == rs[1..] && OutcomeOf(rs[0], ref).err == NotFound
    requires Allowed(rest, ref, o.ref, o.source, o.err)
    ensures Allowed(rs, ref, o.ref, o.source, o.err)
  {
    if o.err == NotFound {
      forall i | 0 <= i < |rs| ensures OutcomeOf(rs[i], ref).err == NotFound {
        if i > 0 { assert rs[i] == rest[i - 1]; }
      }
    } else {
      var i :| 0 <= i < |rest| && OutcomeOf(rest[i], ref).err == o.err && (o.err == Fine ==> OutcomeOf(rest[i], ref) == o);
      assert rs[i + 1] == rest[i];
    }
  }
}
