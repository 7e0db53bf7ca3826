/** Singleton::get as interleaved steps of any number of threads, each step one access to the shared word. */
module SingletonProtocol {
  /** kBeingCreatedMarker */
  const MARKER := 1

  /** Where a thread stands in get(): between calls, before the first load, before the compare-and-exchange,
      before Traits::New, before the store of what New made, or in the loop of WaitForInstance. */
  datatype Place = Idle | Loading | Exchanging | Creating | Storing(made: int) | Waiting

  /** The shared word, the threads, and the history: what every call of New made and every call of get returned. */
  datatype State = State(word: int, threads: seq<Place>, news: seq<int>, returned: seq<int>)
  {
    function Goes(t: nat, place: Place): State
      requires t < |threads|
    {
      this.(threads := threads[t := place])
    }

    function Returns(t: nat, value: int): State
      requires t < |threads|
    {
      Goes(t, Idle).(returned := returned + [value])
    }
  }

  /** The scheduler picks the thread; made is what New makes, should this step call it. */
  datatype Action = Action(thread: nat, made: int)

  function Step(s: State, a: Action): State
    requires a.thread < |s.threads|
  {
    var t := a.thread;
    match s.threads[t]
    case Idle => s.Goes(t, Loading)
    case Loading => if s.word != 0 && s.word != MARKER then s.Returns(t, s.word) else s.Goes(t, Exchanging)
    case Exchanging => if s.word == 0 then s.Goes(t, Creating).(word := MARKER) else s.Goes(t, Waiting)
    case Creating => s.Goes(t, Storing(a.made)).(news := s.news + [a.made])
    case Storing(made) => s.Returns(t, made).(word := made)
    case Waiting => if s.word != MARKER then s.Returns(t, s.word) else s
  }

  predicate Scheduled(n: nat, run: seq<Action>) { forall i :: 0 <= i < |run| ==> run[i].thread < n }

  /** The state n threads reach by a run of steps. */
  function Reached(n: nat, run: seq<Action>): (s: State)
    requires Scheduled(n, run)
    ensures |s.threads| == n
  {
    if run == [] then State(0, seq(n, _ => Idle), [], [])
    else Step(Reached(n, run[..|run| - 1]), run[|run| - 1])
  }

  predicate MakesObjects(run: seq<Action>) { forall i :: 0 <= i < |run| ==> run[i].made != 0 && run[i].made != MARKER }

  predicate Making(place: Place) { place.Creating? || place.Storing? }

  predicate NoneMaking(s: State) { forall t :: 0 <= t < |s.threads| ==> !Making(s.threads[t]) }

  predicate OnlyMaking(s: State, t: nat) {
    t < |s.threads| && Making(s.threads[t]) && forall u :: 0 <= u < |s.threads| && u != t ==> !Making(s.threads[u])
  }

  predicate NoneWaiting(s: State) { forall t :: 0 <= t < |s.threads| ==> !s.threads[t].Waiting? }

  /** Untouched. */
  predicate Fresh(s: State) { s.word == 0 && s.news == [] && s.returned == [] && NoneMaking(s) && NoneWaiting(s) }

  /** Thread t is making the object. */
  predicate MadeBy(s: State, t: nat) {
    && s.word == MARKER && s.returned == [] && OnlyMaking(s, t)
    && s.news == (if s.threads[t].Creating? then [] else [s.threads[t].made])
    && (s.threads[t].Storing? ==> s.threads[t].made != 0 && s.threads[t].made != MARKER)
  }

  /** The object stands and everybody has been given it. */
  predicate Published(s: State) {
    && s.word != 0 && s.word != MARKER && s.news == [s.word] && NoneMaking(s)
    && forall i :: 0 <= i < |s.returned| ==> s.returned[i] == s.word
  }

  ghost predicate Invariant(s: State) { Fresh(s) || (exists t: nat :: MadeBy(s, t)) || Published(s) }

  /** A step changes no other thread. */
  lemma OthersStay(s: State, a: Action)
    requires a.thread < |s.threads|
    ensures |Step(s, a).threads| == |s.threads|
    ensures forall u :: 0 <= u < |s.threads| && u != a.thread ==> Step(s, a).threads[u] == s.threads[u]
  {}

  lemma StepKeepsInvariant(s: State, a: Action)
    requires a.thread < |s.threads| && Invariant(s) && a.made != 0 && a.made != MARKER
    ensures Invariant(Step(s, a))
  {
    var s', t := Step(s, a), a.thread;
    OthersStay(s, a);
    if Fresh(s) {
      if s.threads[t].Exchanging? { assert MadeBy(s', t); } else { assert Fresh(s'); }
    } else if Published(s) {
      assert !Making(s.threads[t]);
      assert Published(s');
    } else {
      var m: nat :| MadeBy(s, m);
      MakerSteps(s, a, m);
    }
  }

  lemma MakerSteps(s: State, a: Action, m: nat)
    requires a.thread < |s.threads| && MadeBy(s, m) && a.made != 0 && a.made != MARKER
    ensures if m == a.thread && s.threads[m].Storing? then Published(Step(s, a)) else MadeBy(Step(s, a), m)
  {
    OthersStay(s, a);
  }

  lemma {:induction false} InvariantHolds(n: nat, run: seq<Action>)
    requires Scheduled(n, run) && MakesObjects(run)
    ensures Invariant(Reached(n, run))
  {
    if run == [] {
      assert Fresh(Reached(n, run));
    } else {
      var before := run[..|run| - 1];
      assert forall i :: 0 <= i < |before| ==> before[i] == run[i];
      InvariantHolds(n, before);
      StepKeepsInvariant(Reached(n, before), run[|run| - 1]);
    }
  }

  /** In every interleaving New runs at most once, and every call of get returns what it made: the same
      pointer, neither null nor the marker. */
  lemma OneObject(n: nat, run: seq<Action>)
    requires Scheduled(n, run) && MakesObjects(run)
    ensures var s := Reached(n, run);
      && |s.news| <= 1
      && (forall i :: 0 <= i < |s.returned| ==> s.news == [s.returned[i]])
      && (forall i :: 0 <= i < |s.returned| ==> s.returned[i] != 0 && s.returned[i] != MARKER)
  {
    InvariantHolds(n, run);
  }

  /** Nobody waits for nothing: while a thread spins, either some thread is making the object or it stands. */
  lemma WaitersHaveAMaker(n: nat, run: seq<Action>, t: nat)
    requires Scheduled(n, run) && MakesObjects(run) && t < n && Reached(n, run).threads[t].Waiting?
    ensures var s := Reached(n, run); Published(s) || exists m: nat :: m != t && MadeBy(s, m)
  {
    InvariantHolds(n, run);
  }

  /** The maker needs two steps of its own, and nobody else's, to publish. */
  lemma MakerPublishes(s: State, t: nat, made: int)
    requires MadeBy(s, t) && made != 0 && made != MARKER
    ensures var a := Action(t, made);
      Published(if s.threads[t].Storing? then Step(s, a) else Step(Step(s, a), a))
  {
    var a := Action(t, made);
    var s' := if s.threads[t].Storing? then s else Step(s, a);
    assert s'.threads[t].Storing? && MadeBy(s', t);
    var s'' := Step(s', a);
    assert forall u :: 0 <= u < |s.threads| && u != t ==> s''.threads[u] == s.threads[u];
  }

  /** Once the object stands, a thread inside get is back within two steps of its own, and has the object. */
  lemma PublishedReturns(s: State, t: nat, made: int)
    requires Published(s) && t < |s.threads| && !s.threads[t].Idle?
    ensures var a := Action(t, made);
      && Published(Step(s, a))
      && var s' := if s.threads[t].Exchanging? then Step(Step(s, a), a) else Step(s, a);
         s'.threads[t].Idle? && s'.returned == s.returned + [s.word]
  {
    assert !Making(s.threads[t]);
    var a := Action(t, made);
    var s' := Step(s, a);
    assert forall u :: 0 <= u < |s.threads| && u != t ==> s'.threads[u] == s.threads[u];
  }

  predicate AlwaysMakes(run: seq<Action>, value: int) { forall i :: 0 <= i < |run| ==> run[i].made == value }

  /** What every run of every number of threads is to satisfy when New always makes value. */
  ghost predicate Correct(value: int) {
    forall n: nat, run: seq<Action> :: Scheduled(n, run) && AlwaysMakes(run, value) ==> Good(Reached(n, run))
  }

  predicate Good(s: State) {
    && |s.news| <= 1
    && forall i :: 0 <= i < |s.returned| ==> s.returned[i] != 0 && s.returned[i] != MARKER && s.news == [s.returned[i]]
  }

  lemma RunOneMore(n: nat, run: seq<Action>, a: Action)
    requires Scheduled(n, run) && a.thread < n
    ensures Scheduled(n, run + [a]) && Reached(n, run + [a]) == Step(Reached(n, run), a)
    ensures AlwaysMakes(run, a.made) ==> AlwaysMakes(run + [a], a.made)
  {
    assert (run + [a])[..|run|] == run;
  }

  /** A run with a whole call behind it: five steps of the same thread. */
  function WithCall(run: seq<Action>, a: Action): seq<Action> { run + [a] + [a] + [a] + [a] + [a] }

  function FiveSteps(s: State, a: Action): State
    requires a.thread < |s.threads|
  {
    Step(Step(Step(Step(Step(s, a), a), a), a), a)
  }

  lemma ReachedWithCall(n: nat, run: seq<Action>, a: Action)
    requires Scheduled(n, run) && AlwaysMakes(run, a.made) && a.thread < n
    ensures Scheduled(n, WithCall(run, a)) && AlwaysMakes(WithCall(run, a), a.made)
    ensures Reached(n, WithCall(run, a)) == FiveSteps(Reached(n, run), a)
  {
    hide Reached, Scheduled, AlwaysMakes, Step;
    RunOneMore(n, run, a);
    RunOneMore(n, run + [a], a);
    RunOneMore(n, run + [a] + [a], a);
    RunOneMore(n, run + [a] + [a] + [a], a);
    RunOneMore(n, run + [a] + [a] + [a] + [a], a);
  }

  /** One thread, one call: load, exchange, New, store. */
  lemma SoloCall(run: seq<Action>, a: Action)
    requires a.thread == 0 && Scheduled(1, run) && AlwaysMakes(run, a.made)
    requires var s := Reached(1, run); s.threads == [Idle] && s.word == 0
    ensures Scheduled(1, WithCall(run, a)) && AlwaysMakes(WithCall(run, a), a.made)
    ensures Reached(1, WithCall(run, a))
         == State(a.made, [Idle], Reached(1, run).news + [a.made], Reached(1, run).returned + [a.made])
  {
    ReachedWithCall(1, run, a);
    hide Reached, Scheduled, AlwaysMakes, WithCall;
  }

  /** The protocol works exactly for a New that makes neither null nor the marker. */
  lemma CorrectIffNeitherNullNorMarker(value: int)
    ensures Correct(value) <==> value != 0 && value != MARKER
  {
    if value != 0 && value != MARKER {
      forall n: nat, run: seq<Action> | Scheduled(n, run) && AlwaysMakes(run, value) ensures Good(Reached(n, run)) {
        OneObject(n, run);
      }
    } else {
      var a := Action(0, value);
      SoloCall([], a);
      var run := WithCall([], a);
      hide WithCall, Reached, Scheduled, AlwaysMakes;
      assert Reached(1, run).returned[0] == value;
      assert !Good(Reached(1, run));
    }
  }

  /** A null from New is made again by the next call. */
  lemma NullIsMadeAgain()
    ensures exists n: nat, run: seq<Action> ::
      Scheduled(n, run) && AlwaysMakes(run, 0) && Reached(n, run).news == [0, 0]
  {
    var a := Action(0, 0);
    assert Reached(1, []) == State(0, [Idle], [], []);
    hide WithCall, Reached, Scheduled;
    SoloCall([], a);
    SoloCall(WithCall([], a), a);
    assert Reached(1, WithCall(WithCall([], a), a)).news == [0, 0];
  }

  /** The marker has been stored for good: nobody is left who would store anything else. */
  predicate Stuck(s: State) { s.word == MARKER && NoneMaking(s) && s.returned == [MARKER] }

  predicate MakesMarker(s: State, t: nat) {
    s.word == MARKER && s.returned == [] && OnlyMaking(s, t) && (s.threads[t].Storing? ==> s.threads[t].made == MARKER)
  }

  ghost predicate MarkerInvariant(s: State) { Fresh(s) || (exists t: nat :: MakesMarker(s, t)) || Stuck(s) }

  lemma StepKeepsMarker(s: State, a: Action)
    requires a.thread < |s.threads| && MarkerInvariant(s) && a.made == MARKER
    ensures MarkerInvariant(Step(s, a)) && (Stuck(s) ==> Stuck(Step(s, a)))
  {
    var s', t := Step(s, a), a.thread;
    assert forall u :: 0 <= u < |s.threads| && u != t ==> s'.threads[u] == s.threads[u];
    if Fresh(s) {
      if s.threads[t].Exchanging? { assert MakesMarker(s', t); }
    } else if Stuck(s) {
      assert !Making(s.threads[t]);
    } else {
      var m: nat :| MakesMarker(s, m);
      if m == t && s.threads[m].Storing? {
        assert Stuck(s');
      } else {
        assert MakesMarker(s', m);
      }
    }
  }

  /** Where New makes the marker, its maker returns it, and nobody else ever returns. */
  lemma {:induction false} OnlyTheMakerReturns(n: nat, run: seq<Action>)
    requires Scheduled(n, run) && AlwaysMakes(run, MARKER)
    ensures var s := Reached(n, run); MarkerInvariant(s) && (s.returned == [] || s.returned == [MARKER])
  {
    if run == [] {
      assert Fresh(Reached(n, run));
    } else {
      var before := run[..|run| - 1];
      assert forall i :: 0 <= i < |before| ==> before[i] == run[i];
      OnlyTheMakerReturns(n, before);
      StepKeepsMarker(Reached(n, before), run[|run| - 1]);
    }
  }
}
