/**
 * The runtime's artifact lifecycle: one active artifact, handles that may outlive it, and a serial
 * queue of loads and closes. Each event below is one stretch of code that runs without an await;
 * calls are synchronous and fall between such stretches.
 */
module Lifecycle {
  import opened Outcomes

  /** Identifies an activated artifact, its inference runtime and its handle. */
  type Token = nat

  datatype Operation = Load | CloseActive | CloseHandle(token: Token)

  /** The operation in progress, suspended at an await. */
  datatype Running =
    | Nothing
    | Loading
    | Created(token: Token)
    | Replacing(token: Token)
    | Closing

  datatype State = State(
    active: Option<Token>,
    open: set<Token>,
    created: nat,
    handles: set<Token>,
    closedHandles: set<Token>,
    queue: seq<Operation>,
    running: Running)

  datatype Event =
    | RequestLoad
    | RequestCloseActive
    | RequestCloseHandle(token: Token)
    | CallHandle(token: Token)
    | CallGlobal
    | Begin
    | LoadFails
    | RuntimeCreated
    | Activate
    | FinishReplacing
    | FinishClosing

  /** What a call comes to: the runtime it is dispatched to, or an error. */
  datatype CallOutcome = Dispatched(runtime: Token) | Inactive | NotLoaded

  function HandleOutcome(s: State, token: Token): CallOutcome {
    if token in s.closedHandles || s.active != Some(token) then Inactive else Dispatched(token)
  }

  function GlobalOutcome(s: State): CallOutcome {
    match s.active
    case None => NotLoaded
    case Some(token) => Dispatched(token)
  }

  /** The first stretch of an operation, up to its first await. */
  function Started(s: State, operation: Operation): State {
    match operation
    case Load => s.(running := Loading)
    case CloseActive =>
      s.(active := None, open := if s.active.Some? then s.open - {s.active.value} else s.open, running := Closing)
    case CloseHandle(token) =>
      s.(active := if s.active == Some(token) then None else s.active, open := s.open - {token}, running := Closing)
  }

  /** The created runtime becomes active; the one it replaces is closed. */
  function Activated(s: State): State
    requires s.running.Created?
  {
    var token := s.running.token;
    match s.active
    case None => s.(active := Some(token), handles := s.handles + {token}, running := Nothing)
    case Some(previous) => s.(active := Some(token), open := s.open - {previous}, running := Replacing(token))
  }

  /** The state after an event, or none when the event cannot happen. */
  function Next(s: State, e: Event): Option<State> {
    match e
    case RequestLoad => Some(s.(queue := s.queue + [Load]))
    case RequestCloseActive => Some(s.(queue := s.queue + [CloseActive]))
    case RequestCloseHandle(token) =>
      if token !in s.handles then None
      else if token in s.closedHandles then Some(s)
      else Some(s.(closedHandles := s.closedHandles + {token}, queue := s.queue + [CloseHandle(token)]))
    case CallHandle(token) => if token in s.handles then Some(s) else None
    case CallGlobal => Some(s)
    case Begin =>
      if s.running.Nothing? && s.queue != [] then Some(Started(s.(queue := s.queue[1..]), s.queue[0])) else None
    case LoadFails => if s.running.Loading? then Some(s.(running := Nothing)) else None
    case RuntimeCreated =>
      if s.running.Loading?
        then Some(s.(open := s.open + {s.created}, created := s.created + 1, running := Created(s.created))) else None
    case Activate => if s.running.Created? then Some(Activated(s)) else None
    case FinishReplacing =>
      if s.running.Replacing? then Some(s.(handles := s.handles + {s.running.token}, running := Nothing)) else None
    case FinishClosing => if s.running.Closing? then Some(s.(running := Nothing)) else None
  }

  const INITIAL := State(None, {}, 0, {}, {}, [], Nothing)

  function Run(events: seq<Event>): Option<State> {
    if events == [] then Some(INITIAL)
    else match Run(events[..|events| - 1])
      case None => None
      case Some(s) => Next(s, events[|events| - 1])
  }

  // ----- invariant

  ghost predicate Inv(s: State) {
    && (s.active.Some? ==> s.active.value in s.open)
    && (forall t :: t in s.open ==> t < s.created && (s.active == Some(t) || s.running == Created(t)))
    && (s.running.Created? ==>
       s.running.token in s.open && s.active != Some(s.running.token) && s.running.token !in s.handles)
    && (s.running.Replacing? ==> s.running.token < s.created)
    && (forall t :: t in s.handles ==> t < s.created)
    && s.closedHandles <= s.handles
    && (forall t :: t in s.closedHandles && t in s.open ==> CloseHandle(t) in s.queue)
  }

  lemma {:induction false} StepKeepsInv(s: State, e: Event, t: State)
    requires Inv(s) && Next(s, e) == Some(t)
    ensures Inv(t)
  {
    if e.Begin? {
      BeginKeepsInv(s, t);
    } else {
      QuietStepKeepsInv(s, e, t);
    }
  }

  lemma {:induction false} BeginKeepsInv(s: State, t: State)
    requires Inv(s) && Next(s, Begin) == Some(t)
    ensures Inv(t)
  {
    forall token | token in t.closedHandles && token in t.open
      ensures CloseHandle(token) in t.queue
    {
      assert s.queue == [s.queue[0]] + t.queue;
    }
  }

  lemma {:induction false} QuietStepKeepsInv(s: State, e: Event, t: State)
    requires Inv(s) && Next(s, e) == Some(t) && !e.Begin?
    ensures Inv(t)
  {
    assert forall operation :: operation in s.queue ==> operation in t.queue;
    assert e.RequestCloseHandle? && t != s ==> CloseHandle(e.token) in t.queue;
  }

  lemma {:induction false} RunKeepsInv(events: seq<Event>)
    requires Run(events).Some?
    ensures Inv(Run(events).value)
  {
    if events != [] {
      RunKeepsInv(events[..|events| - 1]);
      StepKeepsInv(Run(events[..|events| - 1]).value, events[|events| - 1], Run(events).value);
    }
  }

  // ----- what holds over every run

  /** The active artifact's runtime is open. */
  lemma {:induction false} ActiveIsOpen(events: seq<Event>)
    requires Run(events).Some? && Run(events).value.active.Some?
    ensures Run(events).value.active.value in Run(events).value.open
  {
    RunKeepsInv(events);
  }

  /** No call, through a handle or the compiled entry point, is dispatched to a closed runtime. */
  lemma {:induction false} CallsReachOpenRuntimes(events: seq<Event>, token: Token)
    requires Run(events).Some?
    ensures var s := Run(events).value;
            && (HandleOutcome(s, token).Dispatched? ==> HandleOutcome(s, token).runtime in s.open)
            && (GlobalOutcome(s).Dispatched? ==> GlobalOutcome(s).runtime in s.open)
  {
    RunKeepsInv(events);
  }

  /** With nothing queued or running, the only open runtime is the active one, and its handle is not closed. */
  lemma {:induction false} IdleMeansOnlyActiveOpen(events: seq<Event>)
    requires Run(events).Some? && Run(events).value.running.Nothing? && Run(events).value.queue == []
    ensures var s := Run(events).value;
            && s.open == (if s.active.Some? then {s.active.value} else {})
            && (s.active.Some? ==> s.active.value !in s.closedHandles)
  {
    RunKeepsInv(events);
  }

  function RunFrom(s: State, events: seq<Event>): Option<State> {
    if events == [] then Some(s)
    else match RunFrom(s, events[..|events| - 1])
      case None => None
      case Some(t) => Next(t, events[|events| - 1])
  }

  /** While a load is under way nothing but the load itself can end it or touch the active artifact. */
  lemma {:induction false} LoadingIsExclusive(s: State, events: seq<Event>, t: State)
    requires s.running.Loading? && RunFrom(s, events) == Some(t)
    requires forall i :: 0 <= i < |events| ==> !events[i].LoadFails? && !events[i].RuntimeCreated?
    ensures t.running.Loading? && t.active == s.active && t.open == s.open
  {
    if events != [] {
      var before := RunFrom(s, events[..|events| - 1]).value;
      LoadingIsExclusive(s, events[..|events| - 1], before);
      var e := events[|events| - 1];
      assert !e.LoadFails? && !e.RuntimeCreated?;
    }
  }

  /** A load that fails leaves the active artifact and every open runtime as the load found them. */
  lemma {:induction false} FailedLoadChangesNothing(s: State, begun: State, events: seq<Event>, before: State, t: State)
    requires Next(s, Begin) == Some(begun) && s.queue[0].Load?
    requires RunFrom(begun, events) == Some(before)
    requires forall i :: 0 <= i < |events| ==> !events[i].LoadFails? && !events[i].RuntimeCreated?
    requires Next(before, LoadFails) == Some(t)
    ensures t.active == s.active && t.open == s.open
  {
    LoadingIsExclusive(begun, events, before);
  }

  /** Serving the close of a handle whose artifact was replaced leaves the successor active and open. */
  lemma {:induction false} SupersededCloseKeepsSuccessor(events: seq<Event>, token: Token, t: State)
    requires Run(events).Some? && Next(Run(events).value, Begin) == Some(t)
    requires Run(events).value.queue[0] == CloseHandle(token) && Run(events).value.active.Some?
    requires Run(events).value.active.value != token
    ensures t.active == Run(events).value.active && t.active.value in t.open && token !in t.open
  {
    RunKeepsInv(events);
  }

  /** A closed handle stays closed, so it never reaches any runtime again, even before its close is served. */
  lemma {:induction false} ClosedHandleNeverDispatches(s: State, token: Token, events: seq<Event>, t: State)
    requires token in s.closedHandles && RunFrom(s, events) == Some(t)
    ensures token in t.closedHandles && HandleOutcome(t, token) == Inactive
  {
    if events != [] {
      ClosedHandleNeverDispatches(s, token, events[..|events| - 1], RunFrom(s, events[..|events| - 1]).value);
    }
  }

  /** A runtime that is closed is never opened again, so a replaced artifact never comes back. */
  lemma {:induction false} ClosedRuntimesStayClosed(s: State, token: Token, events: seq<Event>, t: State)
    requires Inv(s) && token < s.created && token !in s.open && RunFrom(s, events) == Some(t)
    ensures Inv(t) && token < t.created && token !in t.open && t.active != Some(token)
  {
    if events != [] {
      var before := RunFrom(s, events[..|events| - 1]).value;
      ClosedRuntimesStayClosed(s, token, events[..|events| - 1], before);
      StepKeepsInv(before, events[|events| - 1], t);
    }
  }

  /** Operations left before the queue is idle: each queued one takes a start and at most two more stretches. */
  function Remaining(s: State): nat {
    4 * |s.queue| + (match s.running case Nothing => 0 case Loading => 3 case Created(_) => 2 case Replacing(_) => 1
      case Closing => 1)
  }

  predicate IsRequest(e: Event) {
    e.RequestLoad? || e.RequestCloseActive? || e.RequestCloseHandle? || e.CallHandle? || e.CallGlobal?
  }

  /** The queue cannot get stuck: unless idle, some stretch can run, and each brings it closer to idle. */
  lemma {:induction false} QueueDrains(s: State)
    ensures (s.running.Nothing? && s.queue == []) || exists e :: !IsRequest(e) && Next(s, e).Some?
    ensures forall e :: !IsRequest(e) && Next(s, e).Some? ==> Remaining(Next(s, e).value) < Remaining(s)
  {
    assert s.running.Loading? ==> Next(s, LoadFails).Some?;
    assert s.running.Created? ==> Next(s, Activate).Some?;
    assert s.running.Replacing? ==> Next(s, FinishReplacing).Some?;
    assert s.running.Closing? ==> Next(s, FinishClosing).Some?;
    assert s.running.Nothing? && s.queue != [] ==> Next(s, Begin).Some?;
  }

  // ----- the state told from the events alone

  /** How many runtimes have been created: they are numbered in this order. */
  function Creations(events: seq<Event>): nat {
    if events == [] then 0
    else Creations(events[..|events| - 1]) + (if events[|events| - 1].RuntimeCreated? then 1 else 0)
  }

  /** How many operations have been started. */
  function Starts(events: seq<Event>): nat {
    if events == [] then 0
    else Starts(events[..|events| - 1]) + (if events[|events| - 1].Begin? then 1 else 0)
  }

  /** The operations asked for, in order; a handle asks once. */
  function Requested(events: seq<Event>): seq<Operation> {
    if events == [] then []
    else
      var earlier, e := events[..|events| - 1], events[|events| - 1];
      Requested(earlier) +
      match e
      case RequestLoad => [Load]
      case RequestCloseActive => [CloseActive]
      case RequestCloseHandle(token) => if e in earlier then [] else [CloseHandle(token)]
      case _ => []
  }

  /**
   * Operations are started one at a time and in the order they were asked for: what waits is what has
   * been asked for and not been started. A handle is closed as soon as it is asked to be.
   */
  lemma {:induction false} QueueIsServedInOrder(events: seq<Event>)
    requires Run(events).Some?
    ensures var s := Run(events).value;
            && Starts(events) <= |Requested(events)| && s.queue == Requested(events)[Starts(events)..]
            && s.created == Creations(events)
            && (forall token :: token in s.closedHandles <==> RequestCloseHandle(token) in events)
  {
    if events != [] {
      var earlier, e := events[..|events| - 1], events[|events| - 1];
      assert events == earlier + [e];
      QueueIsServedInOrder(earlier);
      ServedNext(earlier, Run(earlier).value, e, Run(events).value);
    }
  }

  lemma {:induction false} ServedNext(earlier: seq<Event>, s: State, e: Event, t: State)
    requires Next(s, e) == Some(t)
    requires Starts(earlier) <= |Requested(earlier)| && s.queue == Requested(earlier)[Starts(earlier)..]
    requires s.created == Creations(earlier)
    requires forall token :: token in s.closedHandles <==> RequestCloseHandle(token) in earlier
    ensures var events := earlier + [e];
            && Starts(events) <= |Requested(events)| && t.queue == Requested(events)[Starts(events)..]
            && t.created == Creations(events)
            && (forall token :: token in t.closedHandles <==> RequestCloseHandle(token) in events)
  {
    var events := earlier + [e];
    assert events[..|events| - 1] == earlier;
  }

  /** The operation started by the event at the position, which is a start. */
  function Served(events: seq<Event>, i: nat): Option<Operation>
    requires i < |events|
  {
    var earlier := events[..i];
    if events[i].Begin? && Starts(earlier) < |Requested(earlier)| then Some(Requested(earlier)[Starts(earlier)])
    else None
  }

  /** The event at the position made the runtime the active one. */
  ghost predicate ActivatedAt(events: seq<Event>, i: nat, token: Token) {
    i < |events| && events[i].Activate? && Creations(events[..i]) == token + 1
  }

  /**
   * The event at the position ended the runtime's time as the active one, if it was: a later
   * activation, or a close served.
   */
  ghost predicate EndsAt(events: seq<Event>, i: nat, token: Token) {
    i < |events| &&
    (events[i].Activate? || Served(events, i) == Some(CloseActive) || Served(events, i) == Some(CloseHandle(token)))
  }

  ghost predicate ActiveSince(events: seq<Event>, i: nat, token: Token) {
    ActivatedAt(events, i, token) && forall j: nat :: i < j < |events| ==> !EndsAt(events, j, token)
  }

  /** An event keeps what is said of earlier positions. */
  lemma {:induction false} EarlierPositions(earlier: seq<Event>, e: Event, i: nat, token: Token)
    requires i < |earlier|
    ensures ActivatedAt(earlier + [e], i, token) <==> ActivatedAt(earlier, i, token)
    ensures EndsAt(earlier + [e], i, token) <==> EndsAt(earlier, i, token)
  {
    assert (earlier + [e])[..i] == earlier[..i];
  }

  lemma {:induction false} ActiveGoesOn(earlier: seq<Event>, e: Event, i: nat, token: Token)
    requires i < |earlier|
    ensures ActiveSince(earlier + [e], i, token) <==>
            ActiveSince(earlier, i, token) && !EndsAt(earlier + [e], |earlier|, token)
  {
    var events := earlier + [e];
    EarlierPositions(earlier, e, i, token);
    forall j: nat | j < |earlier|
      ensures EndsAt(events, j, token) <==> EndsAt(earlier, j, token)
    {
      EarlierPositions(earlier, e, j, token);
    }
  }

  lemma {:induction false} ActiveIsNew(earlier: seq<Event>, e: Event, token: Token)
    ensures ActiveSince(earlier + [e], |earlier|, token) <==> e.Activate? && Creations(earlier) == token + 1
  {
    assert (earlier + [e])[..|earlier|] == earlier;
  }

  /** How one event changes which artifact is active. */
  lemma {:induction false} ActiveStep(earlier: seq<Event>, s: State, e: Event, t: State, token: Token)
    requires Run(earlier) == Some(s) && Next(s, e) == Some(t)
    ensures t.active == Some(token) <==>
            || (e.Activate? && Creations(earlier) == token + 1)
            || (s.active == Some(token) && !EndsAt(earlier + [e], |earlier|, token))
  {
    QueueIsServedInOrder(earlier);
    assert (earlier + [e])[..|earlier|] == earlier;
    if e.Activate? {
      CreatedIsLast(earlier);
    }
  }

  /** A runtime that was made active has its handle, except while the runtime it replaced is still being closed. */
  lemma {:induction false} ActivatedHaveHandles(events: seq<Event>, token: Token)
    requires Run(events).Some?
    ensures token in Run(events).value.handles <==>
            (exists i: nat :: ActivatedAt(events, i, token)) && Run(events).value.running != Replacing(token)
    ensures Run(events).value.running == Replacing(token) ==> exists i: nat :: ActivatedAt(events, i, token)
  {
    if events != [] {
      var earlier, e := events[..|events| - 1], events[|events| - 1];
      assert events == earlier + [e];
      ActivatedHaveHandles(earlier, token);
      QueueIsServedInOrder(earlier);
      RunKeepsInv(earlier);
      if Run(earlier).value.running.Created? {
        CreatedIsLast(earlier);
      }
      assert events[..|earlier|] == earlier;
      forall i: nat | i < |earlier|
        ensures ActivatedAt(events, i, token) <==> ActivatedAt(earlier, i, token)
      {
        EarlierPositions(earlier, e, i, token);
      }
      if i: nat :| ActivatedAt(earlier, i, token) {
        assert ActivatedAt(events, i, token);
      }
      if e.Activate? && Creations(earlier) == token + 1 {
        assert ActivatedAt(events, |earlier|, token);
      }
    }
  }

  lemma {:induction false} CreatedIsLast(events: seq<Event>)
    requires Run(events).Some? && Run(events).value.running.Created?
    ensures Run(events).value.running.token + 1 == Run(events).value.created
  {
    if events != [] {
      var before := Run(events[..|events| - 1]).value;
      if before.running.Created? {
        CreatedIsLast(events[..|events| - 1]);
      }
    }
  }

  ghost predicate IsActiveBy(events: seq<Event>, token: Token) {
    exists i: nat :: ActiveSince(events, i, token)
  }

  /**
   * In every run the active artifact is that of the last activation, unless a close served since ended
   * it: one of the active artifact, or one of its own handle.
   */
  lemma {:induction false} ActiveIsLastActivated(events: seq<Event>, token: Token)
    requires Run(events).Some?
    ensures Run(events).value.active == Some(token) <==> IsActiveBy(events, token)
  {
    if events != [] {
      var earlier, e := events[..|events| - 1], events[|events| - 1];
      assert events == earlier + [e];
      ActiveIsLastActivated(earlier, token);
      ActiveStep(earlier, Run(earlier).value, e, Run(events).value, token);
      ActiveIsNew(earlier, e, token);
      forall i: nat | i < |earlier|
        ensures ActiveSince(events, i, token) <==> ActiveSince(earlier, i, token) && !EndsAt(events, |earlier|, token)
      {
        ActiveGoesOn(earlier, e, i, token);
      }
      if IsActiveBy(earlier, token) && !EndsAt(events, |earlier|, token) {
        var i: nat :| ActiveSince(earlier, i, token);
        assert ActiveSince(events, i, token);
      }
      if IsActiveBy(events, token) {
        var i: nat :| ActiveSince(events, i, token);
        assert i < |earlier| ==> ActiveSince(earlier, i, token);
      }
    } else {
      assert !IsActiveBy(events, token);
    }
  }

  /**
   * A load that succeeds takes effect: the runtime created last becomes active and is open, and the one
   * active before is closed.
   */
  lemma {:induction false} ActivationTakesEffect(events: seq<Event>)
    requires Run(events).Some? && Run(events + [Activate]).Some?
    ensures var s, t := Run(events).value, Run(events + [Activate]).value;
            && Creations(events) > 0 && t.active == Some(Creations(events) - 1) && t.active.value in t.open
            && (s.active.Some? ==> s.active != t.active && s.active.value !in t.open)
  {
    assert (events + [Activate])[..|events|] == events;
    CreatedIsLast(events);
    QueueIsServedInOrder(events);
    RunKeepsInv(events);
    RunKeepsInv(events + [Activate]);
  }

  /**
   * A close that is served takes effect: what it closes is neither active nor open, and only a close of
   * the active artifact or of its handle ends it.
   */
  lemma {:induction false} CloseTakesEffect(events: seq<Event>)
    requires Run(events).Some? && Run(events + [Begin]).Some?
    ensures var s, t := Run(events).value, Run(events + [Begin]).value;
            && s.queue != []
            && (s.queue[0].CloseActive? ==> t.active.None? && (s.active.Some? ==> s.active.value !in t.open))
            && (s.queue[0].CloseHandle? ==>
                 && s.queue[0].token !in t.open && t.active != Some(s.queue[0].token)
                 && (s.active != Some(s.queue[0].token) ==> t.active == s.active))
            && (s.queue[0].Load? ==> t.active == s.active && t.open == s.open)
  {
    assert (events + [Begin])[..|events|] == events;
  }

  /**
   * A call through a handle is dispatched to the handle's runtime exactly when that is active and the
   * handle was not asked to close, and a compiled call to the active runtime exactly when there is one.
   */
  lemma {:induction false} CallsAreDispatchedExactly(events: seq<Event>, token: Token)
    requires Run(events).Some?
    ensures HandleOutcome(Run(events).value, token) ==
            if IsActiveBy(events, token) && RequestCloseHandle(token) !in events then Dispatched(token) else Inactive
    ensures GlobalOutcome(Run(events).value) == Dispatched(token) <==> IsActiveBy(events, token)
    ensures GlobalOutcome(Run(events).value) == NotLoaded <==> forall other :: !IsActiveBy(events, other)
  {
    ActiveIsLastActivated(events, token);
    QueueIsServedInOrder(events);
    var active := Run(events).value.active;
    if active.Some? {
      ActiveIsLastActivated(events, active.value);
    } else {
      forall other
        ensures !IsActiveBy(events, other)
      {
        ActiveIsLastActivated(events, other);
      }
    }
  }

  // ----- the runtime module

  class SemaRuntime {
    var activeArtifact: Option<Token>
    var openRuntimes: set<Token>
    var created: nat
    var handles: set<Token>
    var closedHandles: set<Token>
    var lifecycleQueue: seq<Operation>
    var running: Running

    ghost function Now(): State
      reads this
    {
      State(activeArtifact, openRuntimes, created, handles, closedHandles, lifecycleQueue, running)
    }

    ghost predicate Valid()
      reads this
    {
      Inv(Now())
    }

    twostate predicate Stepped(e: Event)
      reads this
    {
      Next(old(Now()), e) == Some(Now())
    }

    constructor ()
      ensures Valid() && Now() == INITIAL
    {
      activeArtifact, openRuntimes, created := None, {}, 0;
      handles, closedHandles, lifecycleQueue, running := {}, {}, [], Nothing;
    }

    method EnqueueLifecycle(operation: Operation)
      modifies `lifecycleQueue
      ensures lifecycleQueue == old(lifecycleQueue) + [operation]
    {
      lifecycleQueue := lifecycleQueue + [operation];
    }

    method ActivateArtifact()
      requires Valid()
      modifies this
      ensures Valid() && Stepped(RequestLoad)
    {
      EnqueueLifecycle(Load);
      StepKeepsInv(old(Now()), RequestLoad, Now());
    }

    method CloseSemaArtifact()
      requires Valid()
      modifies this
      ensures Valid() && Stepped(RequestCloseActive)
    {
      EnqueueLifecycle(CloseActive);
      StepKeepsInv(old(Now()), RequestCloseActive, Now());
    }

    /** Closing a handle marks it at once and queues the rest. */
    method Close(token: Token)
      requires Valid() && token in handles
      modifies this
      ensures Valid() && Stepped(RequestCloseHandle(token))
    {
      if token !in closedHandles {
        closedHandles := closedHandles + {token};
        EnqueueLifecycle(CloseHandle(token));
      }
      StepKeepsInv(old(Now()), RequestCloseHandle(token), Now());
    }

    /** A call through a handle; what it is dispatched to is open. */
    method Call(token: Token) returns (outcome: CallOutcome)
      requires Valid() && token in handles
      ensures outcome == HandleOutcome(Now(), token)
      ensures outcome.Dispatched? ==> outcome.runtime == token && token in openRuntimes && token !in closedHandles
    {
      if token in closedHandles || activeArtifact != Some(token) {
        return Inactive;
      }
      outcome := Dispatched(token);
    }

    /** A call from compiled code; what it is dispatched to is open. */
    method DispatchSemaCall() returns (outcome: CallOutcome)
      requires Valid()
      ensures outcome == GlobalOutcome(Now())
      ensures outcome.Dispatched? ==> outcome.runtime in openRuntimes
    {
      var current := activeArtifact;
      if current.None? {
        return NotLoaded;
      }
      outcome := Dispatched(current.value);
    }

    /** Closing a runtime closes it at once and again has no effect. */
    method CloseRuntime(token: Token)
      modifies `openRuntimes
      ensures openRuntimes == old(openRuntimes) - {token}
    {
      if token in openRuntimes {
        openRuntimes := openRuntimes - {token};
      }
    }

    /** The previous operation has settled: the next one starts. */
    method BeginNext()
      requires Valid() && running.Nothing? && lifecycleQueue != []
      modifies this
      ensures Valid() && Stepped(Begin)
    {
      var operation := lifecycleQueue[0];
      lifecycleQueue := lifecycleQueue[1..];
      match operation {
        case Load =>
          running := Loading;
        case CloseActive =>
          var current := activeArtifact;
          activeArtifact := None;
          if current.Some? {
            CloseRuntime(current.value);
          }
          running := Closing;
        case CloseHandle(token) =>
          if activeArtifact == Some(token) {
            activeArtifact := None;
          }
          CloseRuntime(token);
          running := Closing;
      }
      StepKeepsInv(old(Now()), Begin, Now());
    }

    /** Loading settles: with an error, or with a runtime that is started but not yet active. */
    method SettleLoad(loaded: bool)
      requires Valid() && running.Loading?
      modifies this
      ensures Valid() && Stepped(if loaded then RuntimeCreated else LoadFails)
    {
      if loaded {
        openRuntimes := openRuntimes + {created};
        running := Created(created);
        created := created + 1;
      } else {
        running := Nothing;
      }
      StepKeepsInv(old(Now()), if loaded then RuntimeCreated else LoadFails, Now());
    }

    /** The new artifact becomes active in one stretch with the closing of the one it replaces. */
    method ActivateCreated()
      requires Valid() && running.Created?
      modifies this
      ensures Valid() && Stepped(Activate)
    {
      var next := running.token;
      var previous := activeArtifact;
      activeArtifact := Some(next);
      if previous.Some? {
        CloseRuntime(previous.value);
        running := Replacing(next);
      } else {
        handles := handles + {next};
        running := Nothing;
      }
      StepKeepsInv(old(Now()), Activate, Now());
    }

    /** The close an operation was waiting for has settled. */
    method FinishOperation()
      requires Valid() && (running.Replacing? || running.Closing?)
      modifies this
      ensures Valid() && Stepped(if old(running).Replacing? then FinishReplacing else FinishClosing)
    {
      ghost var e := if running.Replacing? then FinishReplacing else FinishClosing;
      if running.Replacing? {
        handles := handles + {running.token};
      }
      running := Nothing;
      StepKeepsInv(old(Now()), e, Now());
    }
  }
}
