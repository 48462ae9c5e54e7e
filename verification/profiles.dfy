/** The profile exchange between connected peers (p2p/profile_service.go). */
module ProfileExchange {
  import opened Prelude

  // Requests, fetches and disconnect handlers are threads that share a mutex and a map of channels. A
  // step of the machine is one thread's next action on the mutex, the map or a channel; threads start
  // at any time and the schedule is arbitrary.

  type Peer = nat
  type Chan = nat
  type Thread = nat

  /** Where a thread is. */
  datatype Pc =
    // QriProfileRequest, through profileWait
    | Asking(p: Peer)                        // before the first Lock
    | Looking(p: Peer)                       // holds the mutex, before reading the map
    | Looked(p: Peer, wait: Option<Chan>)    // holds the mutex, before Unlock
    | AskingAgain(p: Peer)                   // before the second Lock
    | LookingAgain(p: Peer)                  // holds the mutex, before reading the map again
    | Answering(p: Peer, c: Chan)            // holds the mutex, before the deferred Unlock
    | Waiting(p: Peer, c: Chan)              // receives from the channel
    | Released(p: Peer, c: Chan)             // has returned
    // profileRequest
    | Fetching(p: Peer, c: Chan)             // the request is in flight
    | Fetched(p: Peer, c: Chan)              // the request has ended, before close
    | Closed(p: Peer, c: Chan)               // has returned
    // HandleQriPeerDisconnect
    | Leaving(p: Peer)                       // before the first Lock
    | Checking(p: Peer)                      // holds the mutex, before reading the map
    | Checked(p: Peer, wait: Option<Chan>)   // holds the mutex, before Unlock
    | AwaitingExchange(p: Peer, c: Chan)     // receives from the channel
    | Removing(p: Peer, c: Chan)             // before the second Lock
    | Deleting(p: Peer, c: Chan)             // holds the mutex, before delete
    | Deleted(p: Peer)                       // holds the mutex, before Unlock
    | Left(p: Peer)                          // has returned
  {
    predicate Holds() {
      Looking? || Looked? || LookingAgain? || Answering? || Checking? || Checked? || Deleting? || Deleted?
    }

    predicate Done() { Released? || Closed? || Left? }

    predicate Fetcher() { Fetching? || Fetched? || Closed? }
  }

  /** A channel: the peer and the goroutine it was made for, and how often it has been closed. */
  datatype Channel = Channel(peer: Peer, fetcher: Thread, closes: nat)

  datatype State = State(mutex: Option<Thread>, peers: map<Peer, Chan>, threads: seq<Pc>, chans: seq<Channel>)

  const START := State(None, map[], [], [])

  function Lookup(peers: map<Peer, Chan>, p: Peer): Option<Chan> { if p in peers then Some(peers[p]) else None }

  predicate IsClosed(s: State, c: Chan) { c < |s.chans| && s.chans[c].closes > 0 }

  function To(s: State, t: Thread, pc: Pc): State
    requires t < |s.threads|
  {
    s.(threads := s.threads[t := pc])
  }

  function Lock(s: State, t: Thread, pc: Pc): Option<State>
    requires t < |s.threads|
  {
    if s.mutex.Some? then None else Some(To(s, t, pc).(mutex := Some(t)))
  }

  function Unlock(s: State, t: Thread, pc: Pc): Option<State>
    requires t < |s.threads|
  {
    Some(To(s, t, pc).(mutex := None))
  }

  function Receive(s: State, t: Thread, c: Chan, pc: Pc): Option<State>
    requires t < |s.threads|
  {
    if IsClosed(s, c) then Some(To(s, t, pc)) else None
  }

  /** The peer's channel, or a new one with a goroutine that closes it. */
  function Join(s: State, t: Thread, p: Peer): State
    requires t < |s.threads|
  {
    if p in s.peers then To(s, t, Answering(p, s.peers[p]))
    else
      var c := |s.chans|;
      s.(peers := s.peers[p := c],
         threads := s.threads[t := Answering(p, c)] + [Fetching(p, c)],
         chans := s.chans + [Channel(p, |s.threads|, 0)])
  }

  function Close(s: State, t: Thread, p: Peer, c: Chan): State
    requires t < |s.threads|
  {
    if c < |s.chans| then
      To(s, t, Closed(p, c)).(chans := s.chans[c := s.chans[c].(closes := s.chans[c].closes + 1)])
    else To(s, t, Closed(p, c))
  }

  /** A thread's next action; None while it is blocked, or when it has returned. */
  function Turn(s: State, t: Thread): Option<State>
    requires t < |s.threads|
  {
    match s.threads[t]
    case Asking(p) => Lock(s, t, Looking(p))
    case Looking(p) => Some(To(s, t, Looked(p, Lookup(s.peers, p))))
    case Looked(p, wait) => Unlock(s, t, if wait.Some? then Waiting(p, wait.value) else AskingAgain(p))
    case AskingAgain(p) => Lock(s, t, LookingAgain(p))
    case LookingAgain(p) => Some(Join(s, t, p))
    case Answering(p, c) => Unlock(s, t, Waiting(p, c))
    case Waiting(p, c) => Receive(s, t, c, Released(p, c))
    case Released(_, _) => None
    case Fetching(p, c) => Some(To(s, t, Fetched(p, c)))
    case Fetched(p, c) => Some(Close(s, t, p, c))
    case Closed(_, _) => None
    case Leaving(p) => Lock(s, t, Checking(p))
    case Checking(p) => Some(To(s, t, Checked(p, Lookup(s.peers, p))))
    case Checked(p, wait) => Unlock(s, t, if wait.Some? then AwaitingExchange(p, wait.value) else Left(p))
    case AwaitingExchange(p, c) => Receive(s, t, c, Removing(p, c))
    case Removing(p, c) => Lock(s, t, Deleting(p, c))
    case Deleting(p, c) => Some(To(s, t, Deleted(p)).(peers := s.peers - {p}))
    case Deleted(p) => Unlock(s, t, Left(p))
    case Left(_) => None
  }

  datatype Step = Request(p: Peer) | Disconnect(p: Peer) | Run(t: Thread)

  function After(s: State, step: Step): Option<State> {
    match step
    case Request(p) => Some(s.(threads := s.threads + [Asking(p)]))
    case Disconnect(p) => Some(s.(threads := s.threads + [Leaving(p)]))
    case Run(t) => if t < |s.threads| then Turn(s, t) else None
  }

  /** The state after a run; None when a step of it was not possible. */
  function Ran(steps: seq<Step>): Option<State> {
    if steps == [] then Some(START)
    else
      var before := Ran(steps[..|steps| - 1]);
      if before.None? then None else After(before.value, steps[|steps| - 1])
  }

  // ---- what every run keeps ----

  predicate MadeFor(s: State, p: Peer, c: Chan) { c < |s.chans| && s.chans[c].peer == p }

  /** What a thread's position says about the channel it knows. */
  predicate KnowsRight(s: State, t: Thread)
    requires t < |s.threads|
  {
    match s.threads[t]
    case Looked(p, wait) => wait.Some? ==> MadeFor(s, p, wait.value)
    case Answering(p, c) => MadeFor(s, p, c)
    case Waiting(p, c) => MadeFor(s, p, c)
    case Released(p, c) => MadeFor(s, p, c) && IsClosed(s, c)
    case Fetching(p, c) => MadeFor(s, p, c) && s.chans[c].fetcher == t && s.chans[c].closes == 0
    case Fetched(p, c) => MadeFor(s, p, c) && s.chans[c].fetcher == t && s.chans[c].closes == 0
    case Closed(p, c) => MadeFor(s, p, c) && s.chans[c].fetcher == t && s.chans[c].closes == 1
    case Checked(p, wait) => wait.Some? ==> MadeFor(s, p, wait.value)
    case AwaitingExchange(p, c) => MadeFor(s, p, c)
    case Removing(p, c) => MadeFor(s, p, c) && IsClosed(s, c)
    case Deleting(p, c) => MadeFor(s, p, c) && IsClosed(s, c)
    case _ => true
  }

  predicate HasFetcher(s: State, c: Chan)
    requires c < |s.chans|
  {
    var f := s.chans[c].fetcher;
    f < |s.threads| && s.threads[f].Fetcher() && s.threads[f].c == c && s.threads[f].p == s.chans[c].peer
  }

  ghost predicate Inv(s: State) {
    && (s.mutex.Some? ==> s.mutex.value < |s.threads|)
    && (forall t :: 0 <= t < |s.threads| ==> (s.threads[t].Holds() <==> s.mutex == Some(t)))
    && (forall t :: 0 <= t < |s.threads| ==> KnowsRight(s, t))
    && (forall c :: 0 <= c < |s.chans| ==> HasFetcher(s, c))
    && (forall p :: p in s.peers ==> MadeFor(s, p, s.peers[p]))
  }

  /** Channels stay what they are, but for closes by the thread made for one. */
  ghost predicate ChansKept(s: State, after: State, t: Thread) {
    && |s.chans| <= |after.chans| && |s.threads| <= |after.threads|
    && forall c :: 0 <= c < |s.chans| ==>
         && after.chans[c].peer == s.chans[c].peer && after.chans[c].fetcher == s.chans[c].fetcher
         && after.chans[c].closes >= s.chans[c].closes
         && (s.chans[c].fetcher != t ==> after.chans[c].closes == s.chans[c].closes)
  }

  lemma OthersKnow(s: State, after: State, t: Thread, u: Thread)
    requires u < |s.threads| && u != t && KnowsRight(s, u) && ChansKept(s, after, t)
    requires after.threads[u] == s.threads[u]
    ensures KnowsRight(after, u)
  {
  }

  /** A turn changes its own thread alone, and starts at most one. */
  lemma TurnIsLocal(s: State, t: Thread)
    requires t < |s.threads| && Turn(s, t).Some?
    ensures var after := Turn(s, t).value;
            && |s.threads| <= |after.threads| <= |s.threads| + 1
            && (forall u :: 0 <= u < |s.threads| && u != t ==> after.threads[u] == s.threads[u])
            && (|after.threads| > |s.threads| ==> after.threads[|s.threads|].Fetching?)
  {
  }

  lemma TurnKeepsChans(s: State, t: Thread)
    requires t < |s.threads| && Turn(s, t).Some? && KnowsRight(s, t)
    ensures ChansKept(s, Turn(s, t).value, t)
  {
  }

  lemma TurnKnows(s: State, t: Thread)
    requires t < |s.threads| && Turn(s, t).Some? && KnowsRight(s, t)
    requires forall p :: p in s.peers ==> MadeFor(s, p, s.peers[p])
    ensures var after := Turn(s, t).value;
            KnowsRight(after, t) && (|after.threads| > |s.threads| ==> KnowsRight(after, |s.threads|))
  {
  }

  lemma TurnKeepsPeers(s: State, t: Thread)
    requires t < |s.threads| && Turn(s, t).Some?
    requires forall p :: p in s.peers ==> MadeFor(s, p, s.peers[p])
    ensures var after := Turn(s, t).value; forall p :: p in after.peers ==> MadeFor(after, p, after.peers[p])
  {
  }

  lemma TurnKeepsMutex(s: State, t: Thread)
    requires t < |s.threads| && Turn(s, t).Some? && KnowsRight(s, t)
    requires s.threads[t].Holds() <==> s.mutex == Some(t)
    ensures var after := Turn(s, t).value;
            && (after.threads[t].Holds() <==> after.mutex == Some(t))
            && (after.mutex == s.mutex || (s.mutex.None? && after.mutex == Some(t)) || (s.mutex == Some(t) && after.mutex.None?))
  {
  }

  lemma TurnKeepsFetchers(s: State, t: Thread)
    requires Inv(s) && t < |s.threads| && Turn(s, t).Some?
    ensures var after := Turn(s, t).value; forall c :: 0 <= c < |after.chans| ==> HasFetcher(after, c)
  {
    var after := Turn(s, t).value;
    assert KnowsRight(s, t);
    TurnIsLocal(s, t);
    TurnKeepsChans(s, t);
    forall c | 0 <= c < |after.chans| ensures HasFetcher(after, c) {
      if c < |s.chans| {
        assert HasFetcher(s, c);
      }
    }
  }

  lemma TurnKeeps(s: State, t: Thread)
    requires Inv(s) && t < |s.threads| && Turn(s, t).Some?
    ensures Inv(Turn(s, t).value)
  {
    var after := Turn(s, t).value;
    assert KnowsRight(s, t);
    TurnIsLocal(s, t);
    TurnKeepsChans(s, t);
    TurnKnows(s, t);
    TurnKeepsPeers(s, t);
    TurnKeepsFetchers(s, t);
    forall u | 0 <= u < |after.threads| ensures KnowsRight(after, u) {
      if u < |s.threads| && u != t { OthersKnow(s, after, t, u); }
    }
    TurnKeepsMutex(s, t);
    forall u | 0 <= u < |after.threads| ensures after.threads[u].Holds() <==> after.mutex == Some(u) {
      if u < |s.threads| { assert s.threads[u].Holds() <==> s.mutex == Some(u); }
    }
  }

  lemma StepKeeps(s: State, step: Step)
    requires Inv(s) && After(s, step).Some?
    ensures Inv(After(s, step).value)
  {
    var after := After(s, step).value;
    if step.Run? {
      TurnKeeps(s, step.t);
    } else {
      var n := |s.threads|;
      forall u | 0 <= u < n ensures KnowsRight(after, u) { OthersKnow(s, after, n, u); }
      forall c | 0 <= c < |s.chans| ensures HasFetcher(after, c) { assert HasFetcher(s, c); }
    }
  }

  lemma {:induction false} RunsKeep(steps: seq<Step>)
    requires Ran(steps).Some?
    ensures Inv(Ran(steps).value)
  {
    if steps != [] {
      RunsKeep(steps[..|steps| - 1]);
      StepKeeps(Ran(steps[..|steps| - 1]).value, steps[|steps| - 1]);
    }
  }

  // ---- channels ----

  /** In every run a channel has one goroutine that closes it, once: it is closed exactly when that
    * goroutine has returned. */
  lemma ClosedOnceByItsFetcher(steps: seq<Step>, c: Chan)
    requires Ran(steps).Some? && c < |Ran(steps).value.chans|
    ensures var s := Ran(steps).value; var f := s.chans[c].fetcher;
            && f < |s.threads| && s.threads[f].Fetcher() && s.threads[f].c == c
            && (forall t :: 0 <= t < |s.threads| && s.threads[t].Fetcher() && s.threads[t].c == c ==> t == f)
            && s.chans[c].closes <= 1 && (s.chans[c].closes == 1 <==> s.threads[f].Closed?)
  {
    RunsKeep(steps);
    var s := Ran(steps).value;
    var f := s.chans[c].fetcher;
    assert HasFetcher(s, c);
    assert KnowsRight(s, f);
    forall t | 0 <= t < |s.threads| && s.threads[t].Fetcher() && s.threads[t].c == c ensures t == f {
      assert KnowsRight(s, t);
    }
  }

  /** Past the receive from a channel. */
  predicate Past(pc: Pc) { pc.Released? || pc.Removing? || pc.Deleting? }

  /** In every run a thread is past its receive only when a request to its peer has ended. */
  lemma ReleasedAfterFetch(steps: seq<Step>, t: Thread)
    requires Ran(steps).Some? && t < |Ran(steps).value.threads| && Past(Ran(steps).value.threads[t])
    ensures var s := Ran(steps).value; var pc := s.threads[t];
            pc.c < |s.chans| && s.chans[pc.c].fetcher < |s.threads| &&
            s.threads[s.chans[pc.c].fetcher] == Closed(pc.p, pc.c)
  {
    RunsKeep(steps);
    var s := Ran(steps).value;
    assert KnowsRight(s, t);
    ClosedOnceByItsFetcher(steps, s.threads[t].c);
    assert HasFetcher(s, s.threads[t].c);
  }

  /** In every run at most one thread holds the mutex. */
  lemma MutexExcludes(steps: seq<Step>, t: Thread, u: Thread)
    requires Ran(steps).Some? && t < |Ran(steps).value.threads| && u < |Ran(steps).value.threads|
    requires Ran(steps).value.threads[t].Holds() && Ran(steps).value.threads[u].Holds()
    ensures t == u
  {
    RunsKeep(steps);
    var s := Ran(steps).value;
    assert s.mutex == Some(t) && s.mutex == Some(u);
  }

  // ---- the map, as the thread that holds the mutex sees it ----

  /** What a thread has read or written under the mutex is what the map holds while it has the mutex. */
  predicate SeesRight(s: State, t: Thread)
    requires t < |s.threads|
  {
    match s.threads[t]
    case Looked(p, wait) => Lookup(s.peers, p) == wait
    case Answering(p, c) => Lookup(s.peers, p) == Some(c)
    case Checked(p, wait) => Lookup(s.peers, p) == wait
    case Deleted(p) => Lookup(s.peers, p) == None
    case _ => true
  }

  ghost predicate AllSeeRight(s: State) { forall t :: 0 <= t < |s.threads| ==> SeesRight(s, t) }

  lemma TurnSeesRight(s: State, t: Thread)
    requires t < |s.threads| && Turn(s, t).Some? && SeesRight(s, t)
    ensures var after := Turn(s, t).value;
            && SeesRight(after, t)
            && (after.peers != s.peers ==> s.threads[t].Holds())
            && (|after.threads| > |s.threads| ==> SeesRight(after, |s.threads|))
  {
  }

  lemma OthersSeeRight(s: State, after: State, t: Thread, u: Thread)
    requires Inv(s) && t < |s.threads| && u < |s.threads| && u != t && SeesRight(s, u)
    requires |after.threads| >= |s.threads| && after.threads[u] == s.threads[u]
    requires after.peers != s.peers ==> s.threads[t].Holds()
    ensures SeesRight(after, u)
  {
    assert s.threads[u].Holds() <==> s.mutex == Some(u);
    assert s.threads[t].Holds() <==> s.mutex == Some(t);
  }

  lemma StepSeesRight(s: State, step: Step)
    requires Inv(s) && AllSeeRight(s) && After(s, step).Some?
    ensures AllSeeRight(After(s, step).value)
  {
    var after := After(s, step).value;
    if step.Run? {
      var t := step.t;
      TurnIsLocal(s, t);
      TurnSeesRight(s, t);
      forall u | 0 <= u < |after.threads| ensures SeesRight(after, u) {
        if u < |s.threads| && u != t { OthersSeeRight(s, after, t, u); }
      }
    } else {
      forall u | 0 <= u < |after.threads| ensures SeesRight(after, u) {
        if u < |s.threads| { assert SeesRight(s, u); }
      }
    }
  }

  /** In every run: profileWait returns the channel that the map holds, and a disconnect handler that has
    * deleted its peer leaves a map without it, when each gives up the mutex. */
  lemma {:induction false} RunsSeeRight(steps: seq<Step>)
    requires Ran(steps).Some?
    ensures AllSeeRight(Ran(steps).value)
  {
    if steps != [] {
      var before := Ran(steps[..|steps| - 1]).value;
      RunsSeeRight(steps[..|steps| - 1]);
      RunsKeep(steps[..|steps| - 1]);
      StepSeesRight(before, steps[|steps| - 1]);
    }
  }

  // ---- requests in flight ----

  /** The map holds the channel of a request to p. */
  predicate Tracked(peers: map<Peer, Chan>, p: Peer, c: Chan) { Lookup(peers, p) == Some(c) }

  /** The map holds the channel of every request in flight. */
  ghost predicate InFlightTracked(s: State) {
    forall t :: 0 <= t < |s.threads| && s.threads[t].Fetching? ==> Tracked(s.peers, s.threads[t].p, s.threads[t].c)
  }

  /** The step deletes the channel of a request that is in flight. */
  predicate DropsInFlight(s: State, step: Step) {
    step.Run? && step.t < |s.threads| && s.threads[step.t].Deleting? &&
    var p := s.threads[step.t].p;
    p in s.peers && Fetching(p, s.peers[p]) in s.threads
  }

  /** Two requests to one peer are in flight. */
  ghost predicate TwoInFlight(s: State) {
    exists t, u :: 0 <= t < u < |s.threads| && s.threads[t].Fetching? && s.threads[u].Fetching? &&
                   s.threads[t].p == s.threads[u].p
  }

  lemma OneInFlight(s: State)
    requires Inv(s) && InFlightTracked(s)
    ensures !TwoInFlight(s)
  {
    forall t, u | 0 <= t < u < |s.threads| && s.threads[t].Fetching? && s.threads[u].Fetching?
      ensures s.threads[t].p != s.threads[u].p
    {
      assert KnowsRight(s, t) && KnowsRight(s, u);
    }
  }

  /** What a turn does to the map, for the requests that were in flight. */
  lemma TurnTracks(s: State, t: Thread, u: Thread)
    requires t < |s.threads| && Turn(s, t).Some? && u < |s.threads| && s.threads[u].Fetching?
    requires Tracked(s.peers, s.threads[u].p, s.threads[u].c)
    ensures Tracked(Turn(s, t).value.peers, s.threads[u].p, s.threads[u].c) <==>
            !(s.threads[t].Deleting? && s.threads[t].p == s.threads[u].p)
  {
  }

  /** A request that a turn starts is tracked. */
  lemma TurnTracksNew(s: State, t: Thread)
    requires t < |s.threads| && Turn(s, t).Some?
    ensures var after := Turn(s, t).value;
            && !after.threads[t].Fetching?
            && (|after.threads| > |s.threads| ==>
                  var pc := after.threads[|s.threads|]; pc.Fetching? && Tracked(after.peers, pc.p, pc.c))
  {
  }

  /** A step keeps the map holding the channel of every request in flight exactly when it does not
    * delete one of them. */
  lemma StepTracksIff(s: State, step: Step)
    requires InFlightTracked(s) && After(s, step).Some?
    ensures InFlightTracked(After(s, step).value) <==> !DropsInFlight(s, step)
  {
    var after := After(s, step).value;
    if step.Run? {
      var t := step.t;
      TurnIsLocal(s, t);
      TurnTracksNew(s, t);
      if DropsInFlight(s, step) {
        var p := s.threads[t].p;
        var u :| 0 <= u < |s.threads| && s.threads[u] == Fetching(p, s.peers[p]);
        TurnTracks(s, t, u);
        assert after.threads[u].Fetching? && !Tracked(after.peers, p, s.peers[p]);
      } else {
        forall u | 0 <= u < |after.threads| && after.threads[u].Fetching?
          ensures Tracked(after.peers, after.threads[u].p, after.threads[u].c)
        {
          if u < |s.threads| {
            assert u != t && after.threads[u] == s.threads[u];
            TurnTracks(s, t, u);
          }
        }
      }
    }
  }

  function Before(steps: seq<Step>, k: nat): State
    requires k <= |steps|
  {
    match Ran(steps[..k]) case Some(s) => s case None => START
  }

  lemma {:induction false} PrefixRan(steps: seq<Step>, k: nat)
    requires k <= |steps| && Ran(steps).Some?
    ensures Ran(steps[..k]).Some?
  {
    if k < |steps| {
      PrefixRan(steps[..|steps| - 1], k);
      assert steps[..|steps| - 1][..k] == steps[..k];
    } else {
      assert steps[..k] == steps;
    }
  }

  lemma BeforeSteps(steps: seq<Step>, k: nat)
    requires k < |steps| && Ran(steps).Some?
    ensures Inv(Before(steps, k)) && After(Before(steps, k), steps[k]) == Some(Before(steps, k + 1))
  {
    PrefixRan(steps, k);
    PrefixRan(steps, k + 1);
    RunsKeep(steps[..k]);
    assert steps[..k + 1][..k] == steps[..k];
  }

  ghost predicate TrackedAt(steps: seq<Step>, k: nat)
    requires k <= |steps|
  {
    InFlightTracked(Before(steps, k))
  }

  predicate DropsAt(steps: seq<Step>, k: nat)
    requires k < |steps|
  {
    DropsInFlight(Before(steps, k), steps[k])
  }

  ghost predicate TracksUpTo(steps: seq<Step>, n: nat)
    requires n <= |steps|
  {
    forall k :: 0 <= k <= n ==> TrackedAt(steps, k)
  }

  ghost predicate DropsNoneUpTo(steps: seq<Step>, n: nat)
    requires n <= |steps|
  {
    forall k :: 0 <= k < n ==> !DropsAt(steps, k)
  }

  lemma StartTracks(steps: seq<Step>)
    ensures TrackedAt(steps, 0)
  {
    assert steps[..0] == [];
  }

  lemma TracksNext(steps: seq<Step>, n: nat)
    requires n < |steps| && Ran(steps).Some?
    ensures TrackedAt(steps, n) ==> (TrackedAt(steps, n + 1) <==> !DropsAt(steps, n))
  {
    BeforeSteps(steps, n);
    if TrackedAt(steps, n) { StepTracksIff(Before(steps, n), steps[n]); }
  }

  lemma TracksOneMore(steps: seq<Step>, n: nat)
    requires n < |steps|
    ensures TracksUpTo(steps, n + 1) <==> TracksUpTo(steps, n) && TrackedAt(steps, n + 1)
    ensures DropsNoneUpTo(steps, n + 1) <==> DropsNoneUpTo(steps, n) && !DropsAt(steps, n)
    ensures TracksUpTo(steps, n) ==> TrackedAt(steps, n)
  {
  }

  /** All along a run the map holds the channel of every request in flight exactly when no step of the
    * run deletes one of them. */
  lemma {:induction false} RunTracksIff(steps: seq<Step>, n: nat)
    requires n <= |steps| && Ran(steps).Some?
    ensures TracksUpTo(steps, n) <==> DropsNoneUpTo(steps, n)
  {
    StartTracks(steps);
    if n > 0 {
      RunTracksIff(steps, n - 1);
      TracksOneMore(steps, n - 1);
      TracksNext(steps, n - 1);
    }
  }

  // ---- disconnect handlers that do not overlap ----

  /** Between reading the peer's channel and deleting it. */
  predicate Engaged(pc: Pc) {
    (pc.Checked? && pc.wait.Some?) || pc.AwaitingExchange? || pc.Removing? || pc.Deleting?
  }

  function ChanOf(pc: Pc): Chan
    requires Engaged(pc)
  {
    if pc.Checked? then pc.wait.value else pc.c
  }

  /** No two disconnect handlers of one peer overlap. */
  ghost predicate Alone(s: State) {
    forall t, u :: 0 <= t < u < |s.threads| && Engaged(s.threads[t]) && Engaged(s.threads[u]) ==>
                     s.threads[t].p != s.threads[u].p
  }

  ghost predicate HandlersCurrent(s: State) {
    forall t :: 0 <= t < |s.threads| && Engaged(s.threads[t]) ==> Current(s.peers, s.threads[t])
  }

  predicate Current(peers: map<Peer, Chan>, pc: Pc)
    requires Engaged(pc)
  {
    Lookup(peers, pc.p) == Some(ChanOf(pc))
  }

  lemma TurnKeepsHandlers(s: State, t: Thread, u: Thread)
    requires t < |s.threads| && Turn(s, t).Some? && u < |s.threads| && u != t && Engaged(s.threads[u])
    requires Current(s.peers, s.threads[u]) && (s.threads[t].Deleting? ==> s.threads[t].p != s.threads[u].p)
    ensures Current(Turn(s, t).value.peers, s.threads[u])
  {
  }

  lemma TurnKeepsOwn(s: State, t: Thread)
    requires t < |s.threads| && Turn(s, t).Some?
    requires Engaged(s.threads[t]) ==> Current(s.peers, s.threads[t])
    ensures var after := Turn(s, t).value; Engaged(after.threads[t]) ==> Current(after.peers, after.threads[t])
  {
  }

  lemma StepKeepsHandlers(s: State, step: Step)
    requires Inv(s) && HandlersCurrent(s) && Alone(s) && After(s, step).Some?
    ensures HandlersCurrent(After(s, step).value)
  {
    var after := After(s, step).value;
    if step.Run? {
      var t := step.t;
      assert KnowsRight(s, t);
      TurnIsLocal(s, t);
      TurnKeepsOwn(s, t);
      forall u | 0 <= u < |after.threads| && Engaged(after.threads[u]) ensures Current(after.peers, after.threads[u]) {
        if u < |s.threads| && u != t { TurnKeepsHandlers(s, t, u); }
      }
    }
  }

  lemma ClosedNotInFlight(s: State, p: Peer, c: Chan)
    requires Inv(s) && IsClosed(s, c)
    ensures Fetching(p, c) !in s.threads
  {
    forall f | 0 <= f < |s.threads| ensures s.threads[f] != Fetching(p, c) { assert KnowsRight(s, f); }
  }

  lemma CurrentHandlersDropNone(s: State, step: Step)
    requires Inv(s) && HandlersCurrent(s)
    ensures !DropsInFlight(s, step)
  {
    if step.Run? && step.t < |s.threads| && s.threads[step.t].Deleting? {
      var pc := s.threads[step.t];
      assert KnowsRight(s, step.t);
      ClosedNotInFlight(s, pc.p, pc.c);
    }
  }

  ghost predicate AloneUpTo(steps: seq<Step>, n: nat)
    requires n <= |steps|
  {
    forall k :: 0 <= k < n ==> Alone(Before(steps, k))
  }

  lemma {:induction false} HandlersStayCurrent(steps: seq<Step>, n: nat)
    requires n <= |steps| && Ran(steps).Some? && AloneUpTo(steps, n)
    ensures HandlersCurrent(Before(steps, n))
  {
    if n == 0 {
      assert steps[..0] == [];
    } else {
      HandlersStayCurrent(steps, n - 1);
      BeforeSteps(steps, n - 1);
      StepKeepsHandlers(Before(steps, n - 1), steps[n - 1]);
    }
  }

  lemma AloneDropsNone(steps: seq<Step>)
    requires Ran(steps).Some? && AloneUpTo(steps, |steps|)
    ensures DropsNoneUpTo(steps, |steps|)
  {
    forall k | 0 <= k < |steps| ensures !DropsAt(steps, k) {
      HandlersStayCurrent(steps, k);
      BeforeSteps(steps, k);
      CurrentHandlersDropNone(Before(steps, k), steps[k]);
    }
  }

  /** In every run in which disconnect handlers of one peer do not overlap, at most one request per
    * peer is in flight. */
  lemma OneRequestPerPeer(steps: seq<Step>)
    requires Ran(steps).Some? && AloneUpTo(steps, |steps|)
    ensures !TwoInFlight(Ran(steps).value)
  {
    AloneDropsNone(steps);
    OneUnlessDropped(steps);
  }

  lemma OneUnlessDropped(steps: seq<Step>)
    requires Ran(steps).Some? && DropsNoneUpTo(steps, |steps|)
    ensures !TwoInFlight(Ran(steps).value)
  {
    RunTracksIff(steps, |steps|);
    assert steps[..|steps|] == steps;
    assert TrackedAt(steps, |steps|);
    RunsKeep(steps);
    OneInFlight(Ran(steps).value);
  }

  // ---- progress ----

  /** The actions left to a thread and to a goroutine it may start. */
  function Work(pc: Pc): nat {
    match pc
    case Asking(_) => 9 case Looking(_) => 8 case Looked(_, _) => 7 case AskingAgain(_) => 6
    case LookingAgain(_) => 5 case Answering(_, _) => 2 case Waiting(_, _) => 1 case Released(_, _) => 0
    case Fetching(_, _) => 2 case Fetched(_, _) => 1 case Closed(_, _) => 0
    case Leaving(_) => 7 case Checking(_) => 6 case Checked(_, _) => 5 case AwaitingExchange(_, _) => 4
    case Removing(_, _) => 3 case Deleting(_, _) => 2 case Deleted(_) => 1 case Left(_) => 0
  }

  function AllWork(threads: seq<Pc>): nat {
    if threads == [] then 0 else AllWork(threads[..|threads| - 1]) + Work(threads[|threads| - 1])
  }

  lemma {:induction false} WorkUpdated(threads: seq<Pc>, t: Thread, pc: Pc)
    requires t < |threads|
    ensures AllWork(threads[t := pc]) == AllWork(threads) - Work(threads[t]) + Work(pc)
  {
    var n := |threads| - 1;
    if t == n {
      assert threads[t := pc][..n] == threads[..n];
    } else {
      assert threads[t := pc][..n] == threads[..n][t := pc];
      WorkUpdated(threads[..n], t, pc);
    }
  }

  lemma TurnSpends(s: State, t: Thread)
    requires t < |s.threads| && Turn(s, t).Some?
    ensures var after := Turn(s, t).value;
            |after.threads| >= |s.threads| &&
            Work(after.threads[t]) + (if |after.threads| > |s.threads| then 2 else 0) < Work(s.threads[t])
  {
  }

  lemma TurnWorks(s: State, t: Thread)
    requires t < |s.threads| && Turn(s, t).Some?
    ensures AllWork(Turn(s, t).value.threads) < AllWork(s.threads)
  {
    var after := Turn(s, t).value;
    TurnSpends(s, t);
    TurnIsLocal(s, t);
    WorkUpdated(s.threads, t, after.threads[t]);
    var updated := s.threads[t := after.threads[t]];
    if |after.threads| > |s.threads| {
      assert after.threads[..|s.threads|] == updated;
    } else {
      assert after.threads == updated;
    }
  }

  /** While some thread has not returned, some thread can act: the exchange never deadlocks. */
  lemma NoDeadlock(steps: seq<Step>, t: Thread)
    requires Ran(steps).Some? && t < |Ran(steps).value.threads| && !Ran(steps).value.threads[t].Done()
    ensures exists u :: 0 <= u < |Ran(steps).value.threads| && Turn(Ran(steps).value, u).Some?
  {
    RunsKeep(steps);
    var s := Ran(steps).value;
    SomeoneActs(s, t);
  }

  lemma SomeoneActs(s: State, t: Thread)
    requires Inv(s) && t < |s.threads| && !s.threads[t].Done()
    ensures exists u :: 0 <= u < |s.threads| && Turn(s, u).Some?
  {
    var pc := s.threads[t];
    if s.mutex.Some? {
      assert s.threads[s.mutex.value].Holds();
      assert Turn(s, s.mutex.value).Some?;
    } else if pc.Waiting? || pc.AwaitingExchange? {
      assert KnowsRight(s, t);
      var f := s.chans[pc.c].fetcher;
      assert HasFetcher(s, pc.c) && KnowsRight(s, f);
      assert Turn(s, f).Some? || Turn(s, t).Some?;
    } else {
      assert Turn(s, t).Some?;
    }
  }

  function Turns(ts: seq<Thread>): seq<Step> { seq(|ts|, i requires 0 <= i < |ts| => Run(ts[i])) }

  lemma LastTurn(steps: seq<Step>, ts: seq<Thread>, before: seq<Thread>, last: Thread)
    requires ts == before + [last] && Ran(steps + Turns(ts)).Some?
    ensures Ran(steps + Turns(before)).Some?
    ensures AllWork(Ran(steps + Turns(ts)).value.threads) < AllWork(Ran(steps + Turns(before)).value.threads)
  {
    var whole := steps + Turns(ts);
    assert whole[..|whole| - 1] == steps + Turns(before);
    assert whole[|whole| - 1] == Run(last);
    TurnWorks(Ran(steps + Turns(before)).value, last);
  }

  /** Once no more requests or disconnects begin, every schedule ends: it takes no more turns than the
    * work left. With NoDeadlock, it ends with every thread returned. */
  lemma {:induction false} SchedulesEnd(steps: seq<Step>, ts: seq<Thread>)
    requires Ran(steps).Some? && Ran(steps + Turns(ts)).Some?
    ensures |ts| + AllWork(Ran(steps + Turns(ts)).value.threads) <= AllWork(Ran(steps).value.threads)
  {
    if ts == [] {
      assert steps + Turns(ts) == steps;
    } else {
      var before, last := ts[..|ts| - 1], ts[|ts| - 1];
      LastTurn(steps, ts, before, last);
      SchedulesEnd(steps, before);
    }
  }

  // ---- disconnect handlers that overlap ----

  /** `whole` goes on from the run `steps` without deleting the channel of a request in flight. */
  ghost predicate GoesOn(steps: seq<Step>, whole: seq<Step>) {
    steps <= whole && Ran(whole).Some? && forall k :: |steps| <= k < |whole| ==> !DropsAt(whole, k)
  }

  /** The run can go on so to this state. */
  ghost predicate Reachable(steps: seq<Step>, s: State) {
    exists whole :: GoesOn(steps, whole) && Ran(whole) == Some(s)
  }

  lemma ReachEnd(steps: seq<Step>)
    requires Ran(steps).Some?
    ensures Reachable(steps, Ran(steps).value)
  {
    assert GoesOn(steps, steps);
  }

  lemma Reach(steps: seq<Step>, s: State, step: Step, next: State)
    requires Reachable(steps, s) && After(s, step) == Some(next) && !DropsInFlight(s, step)
    ensures Reachable(steps, next)
  {
    var whole :| GoesOn(steps, whole) && Ran(whole) == Some(s);
    var longer := whole + [step];
    assert longer[..|whole|] == whole && longer[|whole|] == step;
    assert Ran(longer) == Some(next);
    forall k | |steps| <= k < |longer| ensures !DropsAt(longer, k) {
      if k < |whole| {
        assert longer[..k] == whole[..k] && !DropsAt(whole, k);
      }
    }
    assert GoesOn(steps, longer);
  }

  /** A state with one more thread. */
  function With(s: State, pc: Pc, mutex: Option<Thread>): State { s.(threads := s.threads + [pc], mutex := mutex) }

  /** A turn of a thread, in each of its three common forms. */
  lemma Locks(run: seq<Step>, s: State, pc: Pc, next: Pc)
    requires !pc.Deleting?
    requires var (t, before) := (|s.threads|, With(s, pc, None)); Reachable(run, before) && Turn(before, t) == Lock(before, t, next)
    ensures Reachable(run, With(s, next, Some(|s.threads|)))
  {
    var t := |s.threads|;
    assert (s.threads + [pc])[t := next] == s.threads + [next];
    Reach(run, With(s, pc, None), Run(t), With(s, next, Some(t)));
  }

  lemma Moves(run: seq<Step>, s: State, pc: Pc, mutex: Option<Thread>, next: Pc)
    requires !pc.Deleting?
    requires var (t, before) := (|s.threads|, With(s, pc, mutex)); Reachable(run, before) && Turn(before, t) == Some(To(before, t, next))
    ensures Reachable(run, With(s, next, mutex))
  {
    var t := |s.threads|;
    assert (s.threads + [pc])[t := next] == s.threads + [next];
    Reach(run, With(s, pc, mutex), Run(t), With(s, next, mutex));
  }

  lemma Unlocks(run: seq<Step>, s: State, pc: Pc, mutex: Option<Thread>, next: Pc)
    requires !pc.Deleting?
    requires var (t, before) := (|s.threads|, With(s, pc, mutex)); Reachable(run, before) && Turn(before, t) == Unlock(before, t, next)
    ensures Reachable(run, With(s, next, None))
  {
    var t := |s.threads|;
    assert (s.threads + [pc])[t := next] == s.threads + [next];
    Reach(run, With(s, pc, mutex), Run(t), With(s, next, None));
  }

  /** A request for a peer that is not in the map, while the mutex is free, up to its second look. */
  lemma AskAgain(run: seq<Step>, s: State, p: Peer)
    requires Reachable(run, s) && s.mutex.None? && p !in s.peers
    ensures Reachable(run, With(s, LookingAgain(p), Some(|s.threads|)))
  {
    var t := |s.threads|;
    Reach(run, s, Request(p), With(s, Asking(p), None));
    Locks(run, s, Asking(p), Looking(p));
    Moves(run, s, Looking(p), Some(t), Looked(p, None));
    Unlocks(run, s, Looked(p, None), Some(t), AskingAgain(p));
    Locks(run, s, AskingAgain(p), LookingAgain(p));
  }

  lemma JoinAlone(run: seq<Step>, s: State, p: Peer)
    requires p !in s.peers && Reachable(run, With(s, LookingAgain(p), Some(|s.threads|)))
    ensures Reachable(run, Joined(s, p, Answering(p, |s.chans|), Some(|s.threads|)))
  {
    var t, c := |s.threads|, |s.chans|;
    assert (s.threads + [LookingAgain(p)])[t := Answering(p, c)] + [Fetching(p, c)] ==
           s.threads + [Answering(p, c), Fetching(p, c)];
    Reach(run, With(s, LookingAgain(p), Some(t)), Run(t), Joined(s, p, Answering(p, c), Some(t)));
  }

  /** Such a request until it waits. */
  lemma AskAlone(run: seq<Step>, s: State, p: Peer)
    requires Reachable(run, s) && s.mutex.None? && p !in s.peers
    ensures Reachable(run, Asked(s, p))
  {
    var t, c := |s.threads|, |s.chans|;
    AskAgain(run, s, p);
    JoinAlone(run, s, p);
    var joined := Joined(s, p, Answering(p, c), Some(t));
    assert joined.threads[t := Waiting(p, c)] == Asked(s, p).threads;
    Reach(run, joined, Run(t), Asked(s, p));
  }

  function Joined(s: State, p: Peer, pc: Pc, mutex: Option<Thread>): State {
    var (t, c) := (|s.threads|, |s.chans|);
    State(mutex, s.peers[p := c], s.threads + [pc, Fetching(p, c)], s.chans + [Channel(p, t + 1, 0)])
  }

  /** A request for a peer has been sent, and its caller waits. */
  function Asked(s: State, p: Peer): State { Joined(s, p, Waiting(p, |s.chans|), None) }

  /** A disconnect handler for a peer in the map, while the mutex is free, up to its receive. */
  lemma LeaveUpToReceive(run: seq<Step>, s: State, p: Peer)
    requires Reachable(run, s) && s.mutex.None? && p in s.peers
    ensures Reachable(run, With(s, AwaitingExchange(p, s.peers[p]), None))
  {
    var t, c := |s.threads|, s.peers[p];
    Reach(run, s, Disconnect(p), With(s, Leaving(p), None));
    Locks(run, s, Leaving(p), Checking(p));
    Moves(run, s, Checking(p), Some(t), Checked(p, Some(c)));
    Unlocks(run, s, Checked(p, Some(c)), Some(t), AwaitingExchange(p, c));
  }

  /** A handler whose channel is closed, while the mutex is free, up to its delete. */
  lemma LeaveUpToDelete(run: seq<Step>, s: State, t: Thread, p: Peer, c: Chan)
    requires Reachable(run, s) && s.mutex.None? && t < |s.threads| && s.threads[t] == AwaitingExchange(p, c) && IsClosed(s, c)
    ensures Reachable(run, To(s, t, Deleting(p, c)).(mutex := Some(t)))
  {
    var ready, held := To(s, t, Removing(p, c)), To(s, t, Deleting(p, c)).(mutex := Some(t));
    Reach(run, s, Run(t), ready);
    assert ready.threads[t := Deleting(p, c)] == held.threads;
    Reach(run, ready, Run(t), held);
  }

  /** The rest of it, where no request to the peer is in flight. */
  lemma LeaveAfterDelete(run: seq<Step>, s: State, held: State, t: Thread, p: Peer, c: Chan)
    requires t < |s.threads| && s.mutex.None? && Reachable(run, held)
    requires held == To(s, t, Deleting(p, c)).(mutex := Some(t)) && !DropsInFlight(held, Run(t))
    ensures Reachable(run, To(s, t, Left(p)).(peers := s.peers - {p}))
  {
    var gone := To(s, t, Deleted(p)).(mutex := Some(t), peers := s.peers - {p});
    var left := To(s, t, Left(p)).(peers := s.peers - {p});
    assert held.threads[t := Deleted(p)] == gone.threads;
    assert gone.threads[t := Left(p)] == left.threads;
    Reach(run, held, Run(t), gone);
    Reach(run, gone, Run(t), left);
  }

  /** A fetch ends and closes its channel. */
  lemma FetchEnds(run: seq<Step>, s: State, t: Thread, p: Peer, c: Chan)
    requires Reachable(run, s) && t < |s.threads| && s.threads[t] == Fetching(p, c) && c < |s.chans|
    ensures Reachable(run, Close(s, t, p, c))
  {
    var fetched := To(s, t, Fetched(p, c));
    Reach(run, s, Run(t), fetched);
    assert fetched.threads[t := Closed(p, c)] == s.threads[t := Closed(p, c)];
    Reach(run, fetched, Run(t), Close(s, t, p, c));
  }

  /** The run can go on, without dropping a request in flight, until two requests to one peer are in
    * flight. */
  ghost predicate CanDouble(run: seq<Step>) { exists s :: Reachable(run, s) && TwoInFlight(s) }

  /** With a request in flight whose peer is not in the map, while the mutex is free, another is sent. */
  lemma UntrackedDoubles(run: seq<Step>, s: State, f: Thread)
    requires Reachable(run, s) && s.mutex.None? && f < |s.threads| && s.threads[f].Fetching? && s.threads[f].p !in s.peers
    ensures CanDouble(run)
  {
    var p := s.threads[f].p;
    AskAlone(run, s, p);
    var two := Asked(s, p);
    assert two.threads[f] == s.threads[f] && two.threads[|s.threads| + 1] == Fetching(p, |s.chans|);
    assert TwoInFlight(two);
  }

  /** A run that has just dropped a request in flight can go on so. */
  lemma DropDoubles(s: State, step: Step, now: seq<Step>, next: State)
    requires Inv(s) && After(s, step) == Some(next) && DropsInFlight(s, step)
    requires Ran(now) == Some(next)
    ensures CanDouble(now)
  {
    var t, p := step.t, s.threads[step.t].p;
    assert s.threads[t].Holds() <==> s.mutex == Some(t);
    ReachEnd(now);
    var f :| 0 <= f < |s.threads| && s.threads[f] == Fetching(p, s.peers[p]);
    DeleteDoubles(now, s, next, t, p, f);
  }

  lemma DeleteDoubles(run: seq<Step>, s: State, gone: State, t: Thread, p: Peer, f: Thread)
    requires t < |s.threads| && gone == To(s, t, Deleted(p)).(peers := s.peers - {p}) && Reachable(run, gone)
    requires f < |s.threads| && f != t && s.threads[f].Fetching? && s.threads[f].p == p
    ensures CanDouble(run)
  {
    var left := To(s, t, Left(p)).(mutex := None, peers := s.peers - {p});
    assert gone.threads[t := Left(p)] == left.threads;
    Reach(run, gone, Run(t), left);
    UntrackedDoubles(run, left, f);
  }

  /** Two requests to one peer can come to be in flight at some point of a run, or when the run goes on
    * from there without dropping one more, exactly when the run has a step that drops a request in
    * flight. */
  lemma RunDoublesIff(steps: seq<Step>)
    requires Ran(steps).Some?
    ensures (forall k :: 0 <= k <= |steps| ==> !CanDouble(steps[..k])) <==> DropsNoneUpTo(steps, |steps|)
  {
    if DropsNoneUpTo(steps, |steps|) {
      forall k | 0 <= k <= |steps| ensures !CanDouble(steps[..k]) { CleanNeverDoubles(steps, k); }
    } else {
      var k :| 0 <= k < |steps| && DropsAt(steps, k);
      DroppedDoubles(steps, k);
    }
  }

  lemma DroppedDoubles(steps: seq<Step>, k: nat)
    requires Ran(steps).Some? && k < |steps| && DropsAt(steps, k)
    ensures CanDouble(steps[..k + 1])
  {
    BeforeSteps(steps, k);
    PrefixRan(steps, k + 1);
    DropDoubles(Before(steps, k), steps[k], steps[..k + 1], Before(steps, k + 1));
  }

  lemma CleanNeverDoubles(steps: seq<Step>, n: nat)
    requires n <= |steps| && DropsNoneUpTo(steps, |steps|)
    ensures !CanDouble(steps[..n])
  {
    forall s | Reachable(steps[..n], s) ensures !TwoInFlight(s) { CleanRunsKeepOne(steps, n, s); }
  }

  lemma CleanRunsKeepOne(steps: seq<Step>, n: nat, s: State)
    requires n <= |steps| && DropsNoneUpTo(steps, |steps|) && Reachable(steps[..n], s)
    ensures !TwoInFlight(s)
  {
    var whole :| GoesOn(steps[..n], whole) && Ran(whole) == Some(s);
    forall k | 0 <= k < |whole| ensures !DropsAt(whole, k) {
      if k < n {
        assert whole[k] == steps[..n][k] == steps[k];
        assert whole[..k] == steps[..n][..k] == steps[..k];
        assert !DropsAt(steps, k);
      }
    }
    OneUnlessDropped(whole);
  }

  /** Two handlers have read one channel, and it is closed. */
  function TwoLeaving(p: Peer): State {
    State(None, map[p := 0], [Waiting(p, 0), Closed(p, 0), AwaitingExchange(p, 0), AwaitingExchange(p, 0)],
          [Channel(p, 1, 1)])
  }

  lemma TwoLeave(p: Peer)
    ensures Reachable([], TwoLeaving(p))
  {
    ReachEnd([]);
    var s := Asked(START, p);
    AskAlone([], START, p);
    LeaveUpToReceive([], s, p);
    var one := With(s, AwaitingExchange(p, 0), None);
    LeaveUpToReceive([], one, p);
    var two := With(one, AwaitingExchange(p, 0), None);
    assert two.threads == [Waiting(p, 0), Fetching(p, 0), AwaitingExchange(p, 0), AwaitingExchange(p, 0)];
    FetchEnds([], two, 1, p, 0);
    assert Close(two, 1, p, 0) == TwoLeaving(p);
  }

  /** A request has begun between the handlers' deletes. */
  function OneLeaving(p: Peer): State {
    State(None, map[p := 1],
          [Waiting(p, 0), Closed(p, 0), Left(p), AwaitingExchange(p, 0), Waiting(p, 1), Fetching(p, 1)],
          [Channel(p, 1, 1), Channel(p, 5, 0)])
  }

  lemma OneLeaves(p: Peer)
    ensures Reachable([], OneLeaving(p))
  {
    var two := TwoLeaving(p);
    TwoLeave(p);
    LeaveUpToDelete([], two, 2, p, 0);
    var held := To(two, 2, Deleting(p, 0)).(mutex := Some(2));
    assert held.threads == [Waiting(p, 0), Closed(p, 0), Deleting(p, 0), AwaitingExchange(p, 0)];
    LeaveAfterDelete([], two, held, 2, p, 0);
    var s := State(None, map[], [Waiting(p, 0), Closed(p, 0), Left(p), AwaitingExchange(p, 0)], [Channel(p, 1, 1)]);
    assert s == To(two, 2, Left(p)).(peers := map[p := 0] - {p});
    AskAlone([], s, p);
    assert Asked(s, p) == OneLeaving(p);
  }

  /** Disconnect handlers that overlap can drop a request in flight: here is a run in which they do, and
    * in which two requests to the peer are in flight. */
  lemma OverlapSendsTwo(p: Peer) returns (steps: seq<Step>)
    ensures Ran(steps).Some? && TwoInFlight(Ran(steps).value)
  {
    OneLeaves(p);
    var before := OneLeaving(p);
    LeaveUpToDelete([], before, 3, p, 0);
    var held := To(before, 3, Deleting(p, 0)).(mutex := Some(3));
    assert held.threads[5] == Fetching(p, 1);
    steps := DropSendsTwo(held, Run(3));
  }

  /** Any step that drops a request in flight can be followed by two requests to the peer in flight. */
  lemma DropSendsTwo(s: State, step: Step) returns (steps: seq<Step>)
    requires Reachable([], s) && After(s, step).Some? && DropsInFlight(s, step)
    ensures Ran(steps).Some? && TwoInFlight(Ran(steps).value)
  {
    var run :| GoesOn([], run) && Ran(run) == Some(s);
    var now := run + [step];
    assert now[..|run|] == run && now[|run|] == step;
    RunsKeep(run);
    DropDoubles(s, step, now, After(s, step).value);
    var two :| Reachable(now, two) && TwoInFlight(two);
    steps :| GoesOn(now, steps) && Ran(steps) == Some(two);
  }
}
