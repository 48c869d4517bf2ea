/** The hand-off between a resolver thread and the parent that may lose interest in it. */
module Resolver {
  import opened Wrappers

  datatype Party = Parent | Thread

  /** Where the resolver thread is (getaddrinfo_thread). */
  datatype ThreadPc =
    | NotStarted
    | Resolving
    | Resolved
    | Holding     // has the mutex, about to look at `done`
    | Signalling  // has set `done`, about to release the mutex
    | Late        // released the mutex; it was too late, so it cleans up
    | Emptied     // has destroyed the sync data, about to free td
    | Exited

  /** Where the parent is. */
  datatype ParentPc =
    | Idle
    | Ready                          // a lookup is outstanding, no call in progress
    | Polling                        // Curl_resolver_is_resolved, before the mutex
    | PollHolding
    | Polled(seen: bool)
    | Joining(entry: bool)           // thread_wait_resolv
    | Completing                     // getaddrinfo_complete
    | Entering                       // destroy_async_data, before the mutex
    | Cancelling
    | CancelHolding
    | Detaching                      // the thread was still at work
    | Reaping                        // the thread was done, or never started
    | Destroying
    | Freeing
    | ClosingRead
    | Finished

  /** The accesses to td and the sync data in it, by who makes them and where. */
  datatype Access = ByThread | ByParent | HandleRead

  datatype State = State(
    parent: ParentPc,
    thread: ThreadPc,
    lock: Option<Party>,
    done: bool,
    joinable: bool,       // thread_hnd is set
    joined: nat,          // times the thread was joined
    detached: nat,        // times it was detached
    res: bool,            // tsd.res holds an address list
    live: bool,           // td is allocated
    destroyed: nat,       // times destroy_thread_sync_data has run
    freed: nat,           // times td was freed
    lists: nat,           // address lists made by the resolver
    handed: nat,          // lists given to the DNS callback
    released: nat,        // lists freed
    readClosed: nat,
    writeClosed: nat,
    stale: set<Access>)   // accesses made after td was freed

  const INITIAL := State(Idle, NotStarted, None, false, false, 0, 0, false, false, 0, 0, 0, 0, 0, 0, 0, {})

  datatype StartOutcome = Started | HostnameCopyFails | NameCopyFails | ThreadFails

  datatype Step =
    | Start(outcome: StartOutcome)
    | Poll | Cancel | Wait(entry: bool)  // the parent's calls; kill is Wait(false)
    | ParentMoves
    | ThreadResolves(found: bool)
    | ThreadMoves

  function Touch(s: State, a: Access): State {
    if s.live then s else s.(stale := s.stale + {a})
  }

  function DestroySyncData(s: State): State {
    s.(destroyed := s.destroyed + 1,
       released := if s.res then s.released + 1 else s.released,
       res := false,
       writeClosed := s.writeClosed + 1)
  }

  function FreeTd(s: State): State {
    s.(freed := s.freed + 1, live := false)
  }

  /** init_resolve_thread: until a thread runs, the request counts as done. */
  function StartLookup(s: State, outcome: StartOutcome): State {
    var made := s.(live := true, done := true);
    match outcome
    case Started => made.(parent := Ready, thread := Resolving, done := false, joinable := true)
    // the sync data cleans up after itself and td is freed by hand
    case HostnameCopyFails => FreeTd(DestroySyncData(made)).(parent := Finished)
    case NameCopyFails => made.(parent := Entering)
    case ThreadFails => made.(parent := Entering)
  }

  /** The parent's next action, if it can act; `early` moves the handle read into the locked section. */
  function ParentNext(s: State, early: bool): Option<State> {
    match s.parent
    case Idle => None
    case Ready => None
    case Polling =>
      if s.lock.Some? then None else Some(Touch(s, ByParent).(parent := PollHolding, lock := Some(Parent)))
    case PollHolding => Some(Touch(s, ByParent).(parent := Polled(s.done), lock := None))
    case Polled(seen) => Some(s.(parent := if seen then Completing else Ready))
    case Joining(entry) =>
      if s.thread != Exited then None
      else Some(Touch(s, ByParent).(joinable := false, joined := s.joined + 1,
                                    parent := if entry then Completing else Entering))
    case Completing =>
      Some(Touch(s, ByParent).(handed := if s.res then s.handed + 1 else s.handed, res := false, parent := Entering))
    case Entering => Some(Touch(s, ByParent).(parent := Cancelling))
    case Cancelling =>
      if s.lock.Some? then None else Some(Touch(s, ByParent).(parent := CancelHolding, lock := Some(Parent)))
    case CancelHolding =>
      Some(Touch(s, ByParent).(parent := if s.done then Reaping else Detaching, done := true, lock := None))
    case Detaching =>
      Some((if early then s else Touch(s, HandleRead)).(parent := ClosingRead, detached := s.detached + 1))
    case Reaping =>
      if s.joinable && s.thread != Exited then None
      else Some(Touch(s, ByParent).(joinable := false, joined := if s.joinable then s.joined + 1 else s.joined,
                                    parent := Destroying))
    case Destroying => Some(DestroySyncData(Touch(s, ByParent)).(parent := Freeing))
    case Freeing => Some(FreeTd(Touch(s, ByParent)).(parent := ClosingRead))
    case ClosingRead => Some(s.(readClosed := s.readClosed + 1, parent := Finished))
    case Finished => None
  }

  function ThreadNext(s: State): Option<State> {
    match s.thread
    case NotStarted => None
    case Resolving => None
    case Resolved =>
      if s.lock.Some? then None else Some(Touch(s, ByThread).(thread := Holding, lock := Some(Thread)))
    case Holding =>
      if s.done then Some(Touch(s, ByThread).(thread := Late, lock := None))
      else Some(Touch(s, ByThread).(thread := Signalling, done := true))
    case Signalling => Some(Touch(s, ByThread).(thread := Exited, lock := None))
    case Late => Some(DestroySyncData(Touch(s, ByThread)).(thread := Emptied))
    case Emptied => Some(FreeTd(Touch(s, ByThread)).(thread := Exited))
    case Exited => None
  }

  function Next(s: State, step: Step, early: bool): Option<State> {
    match step
    case Start(outcome) => if s.parent == Idle then Some(StartLookup(s, outcome)) else None
    case Poll => if s.parent == Ready then Some(s.(parent := Polling)) else None
    case Cancel => if s.parent == Ready then Some(s.(parent := Entering)) else None
    case Wait(entry) => if s.parent == Ready then Some(s.(parent := Joining(entry))) else None
    case ParentMoves => ParentNext(s, early)
    case ThreadResolves(found) =>
      if s.thread != Resolving then None
      else Some(Touch(s, ByThread).(thread := Resolved, res := found, lists := if found then s.lists + 1 else s.lists))
    case ThreadMoves => ThreadNext(s)
  }

  /** The state after an interleaving of steps; none when a step was not possible. */
  function Run(s: State, steps: seq<Step>, early: bool): Option<State>
    decreases |steps|
  {
    if steps == [] then Some(s)
    else
      var s' := Next(s, steps[0], early);
      if s'.None? then None else Run(s'.value, steps[1..], early)
  }

  // ---- What holds in every interleaving

  /** The parent still has td to itself or shares it with a thread that will not free it. */
  predicate ParentHasTd(p: ParentPc) {
    !p.Idle? && !p.Detaching? && !p.ClosingRead? && !p.Finished?
  }

  predicate ThreadAtWork(t: ThreadPc) { t in {Resolving, Resolved, Holding} }

  ghost predicate Invariant(s: State, early: bool) {
    && (s.lock == Some(Thread) <==> s.thread in {Holding, Signalling})
    && (s.lock == Some(Parent) <==> s.parent in {PollHolding, CancelHolding})
    // who may still free td, and how often it was freed
    && (s.live <==> !s.parent.Idle? && s.freed == 0)
    && s.freed <= 1
    && (ParentHasTd(s.parent) ==> s.live && s.thread !in {Late, Emptied})
    && (s.parent.Idle? ==> s == INITIAL)
    && (s.thread in {Late, Emptied} ==> s.live && s.done)
    && (ThreadAtWork(s.thread) ==> s.live && !s.parent.Idle?)
    && (s.thread == Signalling ==> s.live)
    // the meaning of `done`
    && (ParentHasTd(s.parent) && s.parent !in {Reaping, Destroying, Freeing} ==>
          (s.done <==> s.thread in {NotStarted, Signalling, Exited}))
    && (s.parent in {Reaping, Destroying, Freeing} ==> s.done && s.thread in {NotStarted, Signalling, Exited})
    && (s.parent.Polled? && s.parent.seen ==> s.done)
    && (s.parent.Completing? ==> s.done)
    && (s.parent in {Destroying, Freeing} ==> s.thread in {NotStarted, Exited})
    && (ParentHasTd(s.parent) && s.thread == NotStarted ==>
        !s.joinable && s.parent in {Entering, Cancelling, CancelHolding, Reaping, Destroying, Freeing})
    && (s.parent == Reaping && s.thread != NotStarted && !s.joinable ==> s.thread == Exited)
    && (s.parent in {Ready, Polling, PollHolding} || s.parent.Polled? || s.parent.Joining? ==> s.joinable)
    && (!s.joinable && s.thread != NotStarted ==> s.thread == Exited)
    // after the parent has left
    && (s.parent == Detaching ==> s.done && s.thread in {Resolving, Resolved, Holding, Late, Emptied, Exited})
    && (s.parent == Detaching ==> (s.live <==> s.thread != Exited))
    && (s.parent in {ClosingRead, Finished} ==> (s.live <==> s.thread !in {NotStarted, Exited}))
    && (s.parent in {ClosingRead, Finished} ==> s.thread != Signalling && (s.thread != Exited ==> s.done))
    // the sync data goes just before td
    && s.destroyed == (if s.freed == 1 || s.parent == Freeing || s.thread == Emptied then 1 else 0)
    && s.writeClosed == s.destroyed
    && s.readClosed <= 1 && (s.parent != Finished ==> s.readClosed == 0)
    && (s.destroyed == 1 ==> !s.res)
    // the address list
    && (s.res ==> s.live && s.thread !in {NotStarted, Resolving})
    && s.lists == s.handed + s.released + (if s.res then 1 else 0)
    && s.lists <= 1
    && (s.thread in {NotStarted, Resolving} ==> s.lists == 0)
    // accesses
    && s.stale <= (if early then {} else {HandleRead})
  }

  lemma InitialInvariant(early: bool)
    ensures Invariant(INITIAL, early)
  {
  }

  lemma ThreadKeepsInvariant(s: State, early: bool)
    requires Invariant(s, early) && ThreadNext(s).Some?
    ensures Invariant(ThreadNext(s).value, early)
  {
  }

  predicate InCleanUp(p: ParentPc) {
    p in {Entering, Cancelling, CancelHolding, Detaching, Reaping, Destroying, Freeing, ClosingRead}
  }

  lemma ParentWaitsKeepsInvariant(s: State, early: bool)
    requires Invariant(s, early) && !InCleanUp(s.parent) && ParentNext(s, early).Some?
    ensures Invariant(ParentNext(s, early).value, early)
  {
  }

  lemma ParentCleansKeepsInvariant(s: State, early: bool)
    requires Invariant(s, early) && InCleanUp(s.parent) && ParentNext(s, early).Some?
    ensures Invariant(ParentNext(s, early).value, early)
  {
  }

  lemma CallKeepsInvariant(s: State, step: Step, early: bool)
    requires Invariant(s, early) && !step.ParentMoves? && !step.ThreadMoves? && Next(s, step, early).Some?
    ensures Invariant(Next(s, step, early).value, early)
  {
  }

  lemma StepKeepsInvariant(s: State, step: Step, early: bool)
    requires Invariant(s, early) && Next(s, step, early).Some?
    ensures Invariant(Next(s, step, early).value, early)
  {
    hide Invariant, ParentNext, ThreadNext;
    match step
    case ParentMoves =>
      if InCleanUp(s.parent) { ParentCleansKeepsInvariant(s, early); } else { ParentWaitsKeepsInvariant(s, early); }
    case ThreadMoves => ThreadKeepsInvariant(s, early);
    case _ => CallKeepsInvariant(s, step, early);
  }

  lemma {:induction false} RunKeepsInvariant(s: State, steps: seq<Step>, early: bool)
    requires Invariant(s, early) && Run(s, steps, early).Some?
    ensures Invariant(Run(s, steps, early).value, early)
    decreases |steps|
  {
    if steps != [] {
      StepKeepsInvariant(s, steps[0], early);
      RunKeepsInvariant(Next(s, steps[0], early).value, steps[1..], early);
    }
  }

  // ---- Results

  /** Both sides are through. */
  predicate Quiescent(s: State) {
    s.parent == Finished && s.thread in {NotStarted, Exited}
  }

  /** Whatever the interleaving, td is freed once, its contents destroyed once, and a list is handed over or freed,
      once. */
  lemma CleanedUpOnce(steps: seq<Step>, early: bool)
    requires Run(INITIAL, steps, early).Some?
    ensures var s := Run(INITIAL, steps, early).value;
            && s.freed <= 1 && s.destroyed <= 1 && s.writeClosed <= 1 && s.readClosed <= 1
            && s.handed + s.released <= s.lists <= 1
            && (Quiescent(s) ==>
                  s.freed == s.destroyed == s.writeClosed == 1 && !s.live && s.handed + s.released == s.lists)
  {
    InitialInvariant(early);
    RunKeepsInvariant(INITIAL, steps, early);
  }

  // ---- The thread handle

  /** The thread is released by joining or detaching it, and not twice. */
  ghost predicate HandleOnce(s: State) {
    && s.joined + s.detached
       == (if s.thread == NotStarted || (s.joinable && s.parent !in {ClosingRead, Finished}) then 0 else 1)
    && (s.parent == Detaching ==> s.joinable && s.thread != NotStarted)
    && (s.parent in {Destroying, Freeing} ==> !s.joinable)
  }

  lemma ParentKeepsHandle(s: State, early: bool)
    requires Invariant(s, early) && HandleOnce(s) && ParentNext(s, early).Some?
    ensures HandleOnce(ParentNext(s, early).value)
  {
  }

  lemma ThreadKeepsHandle(s: State)
    requires HandleOnce(s) && ThreadNext(s).Some?
    ensures HandleOnce(ThreadNext(s).value)
  {
  }

  lemma StepKeepsHandle(s: State, step: Step, early: bool)
    requires Invariant(s, early) && HandleOnce(s) && Next(s, step, early).Some?
    ensures HandleOnce(Next(s, step, early).value)
  {
    hide Invariant, HandleOnce, ParentNext, ThreadNext;
    match step
    case ParentMoves => ParentKeepsHandle(s, early);
    case ThreadMoves => ThreadKeepsHandle(s);
    case _ => if s.parent.Idle? { IdleIsInitial(s, early); } CallKeepsHandle(s, step, early);
  }

  lemma IdleIsInitial(s: State, early: bool)
    requires Invariant(s, early) && s.parent.Idle?
    ensures s == INITIAL
  {
  }

  lemma CallKeepsHandle(s: State, step: Step, early: bool)
    requires HandleOnce(s) && (s.parent.Idle? ==> s == INITIAL) && !step.ParentMoves? && !step.ThreadMoves?
    requires Next(s, step, early).Some?
    ensures HandleOnce(Next(s, step, early).value)
  {
    hide ParentNext, ThreadNext, HandleOnce, INITIAL, StartLookup;
    match step
    case Start(outcome) => StartHasHandle(outcome);
    case Poll => ReadyMoves(s, Polling);
    case Cancel => ReadyMoves(s, Entering);
    case Wait(entry) => ReadyMoves(s, Joining(entry));
    case ThreadResolves(found) => ResolvingMoves(s, Next(s, step, early).value);
  }

  lemma StartHasHandle(outcome: StartOutcome)
    ensures HandleOnce(StartLookup(INITIAL, outcome))
  {
  }

  lemma ReadyMoves(s: State, p: ParentPc)
    requires HandleOnce(s) && s.parent == Ready
    requires p !in {ClosingRead, Finished, Detaching, Destroying, Freeing}
    ensures HandleOnce(s.(parent := p))
  {
  }

  lemma ResolvingMoves(s: State, s': State)
    requires HandleOnce(s) && s.thread == Resolving && s'.thread == Resolved && s'.parent == s.parent
    requires s'.joinable == s.joinable && s'.joined == s.joined && s'.detached == s.detached
    ensures HandleOnce(s')
  {
  }

  lemma InitialHandle()
    ensures HandleOnce(INITIAL)
  {
  }

  lemma HandleInTheEnd(s: State)
    requires HandleOnce(s)
    ensures s.joined + s.detached <= 1
    ensures Quiescent(s) ==> s.joined + s.detached == if s.thread == NotStarted then 0 else 1
  {
  }

  lemma {:induction false} RunKeepsHandle(s: State, steps: seq<Step>, early: bool)
    requires Invariant(s, early) && HandleOnce(s) && Run(s, steps, early).Some?
    ensures HandleOnce(Run(s, steps, early).value)
    decreases |steps|
  {
    hide Invariant, HandleOnce, Next;
    if steps != [] {
      StepKeepsInvariant(s, steps[0], early);
      StepKeepsHandle(s, steps[0], early);
      RunKeepsHandle(Next(s, steps[0], early).value, steps[1..], early);
    }
  }

  /** In every interleaving a thread that was started is joined or detached at most once, and once when both sides are
      through. */
  lemma ThreadIsReleasedOnce(steps: seq<Step>, early: bool)
    requires Run(INITIAL, steps, early).Some?
    ensures var s := Run(INITIAL, steps, early).value;
            && s.joined + s.detached <= 1
            && (Quiescent(s) ==> s.joined + s.detached == if s.thread == NotStarted then 0 else 1)
  {
    hide Run, Invariant, HandleOnce, INITIAL;
    InitialInvariant(early);
    InitialHandle();
    RunKeepsHandle(INITIAL, steps, early);
    HandleInTheEnd(Run(INITIAL, steps, early).value);
  }

  // ---- Who gets the address list

  /** The parent loses interest. */
  predicate Abandons(step: Step) { step == Cancel || step == Wait(false) }

  predicate Abandoned(steps: seq<Step>) { exists step :: step in steps && Abandons(step) }

  /** The resolver has found addresses. */
  predicate Found(steps: seq<Step>) { ThreadResolves(true) in steps }

  /** The parent has not taken the result, and still may. */
  predicate MayTake(p: ParentPc) {
    p in {Ready, Polling, PollHolding, Completing, Joining(true)} || p.Polled?
  }

  /** Where the list is, depending on what has happened. */
  ghost predicate Story(s: State, found: bool, abandoned: bool) {
    && !s.parent.Idle? && s.thread != NotStarted
    && s.lists == (if found then 1 else 0)
    && (abandoned ==> s.handed == 0 && !MayTake(s.parent))
    && (!abandoned ==> s.released == 0 && s.parent !in {Joining(false), Detaching})
    && (!abandoned && MayTake(s.parent) ==> s.handed == 0)
    && (!abandoned && !MayTake(s.parent) ==>
          !s.res && s.handed == s.lists && s.thread in {Signalling, Exited} && (InCleanUp(s.parent) ==> s.done))
  }

  lemma ParentKeepsStory(s: State, early: bool, found: bool, abandoned: bool)
    requires Invariant(s, early) && Story(s, found, abandoned) && ParentNext(s, early).Some?
    ensures Story(ParentNext(s, early).value, found, abandoned)
  {
  }

  lemma ThreadKeepsStory(s: State, early: bool, found: bool, abandoned: bool)
    requires Invariant(s, early) && Story(s, found, abandoned) && ThreadNext(s).Some?
    ensures Story(ThreadNext(s).value, found, abandoned)
  {
  }

  lemma StepKeepsStory(s: State, step: Step, early: bool, found: bool, abandoned: bool)
    requires Invariant(s, early) && Story(s, found, abandoned) && Next(s, step, early).Some?
    ensures Story(Next(s, step, early).value, found || step == ThreadResolves(true), abandoned || Abandons(step))
  {
    hide ParentNext, ThreadNext;
    match step
    case ParentMoves => ParentKeepsStory(s, early, found, abandoned);
    case ThreadMoves => ThreadKeepsStory(s, early, found, abandoned);
    case _ =>
  }

  lemma {:induction false} RunKeepsStory(s: State, steps: seq<Step>, early: bool, found: bool, abandoned: bool)
    requires Invariant(s, early) && Story(s, found, abandoned) && Run(s, steps, early).Some?
    ensures Story(Run(s, steps, early).value, found || Found(steps), abandoned || Abandoned(steps))
    decreases |steps|
  {
    hide Invariant, Story, Next;
    if steps != [] {
      StepKeepsInvariant(s, steps[0], early);
      StepKeepsStory(s, steps[0], early, found, abandoned);
      assert steps == [steps[0]] + steps[1..];
      RunKeepsStory(Next(s, steps[0], early).value, steps[1..], early, found || steps[0] == ThreadResolves(true),
        abandoned || Abandons(steps[0]));
    }
  }

  /** Once both sides are through, the list the resolver found was handed over if the parent has not lost interest,
      and else it was freed. */
  lemma FoundIsDelivered(steps: seq<Step>, early: bool)
    requires Run(INITIAL, [Start(Started)] + steps, early).Some?
    ensures var s := Run(INITIAL, [Start(Started)] + steps, early).value;
            && s.lists == (if Found(steps) then 1 else 0)
            && (Abandoned(steps) ==> s.handed == 0)
            && (!Abandoned(steps) ==> s.released == 0)
            && (Quiescent(s) ==>
                  && s.handed == (if Found(steps) && !Abandoned(steps) then 1 else 0)
                  && s.released == (if Found(steps) && Abandoned(steps) then 1 else 0))
  {
    var s := StartedRun(steps, early);
    if Quiescent(s) { EndOfStory(s, early, Found(steps), Abandoned(steps)); }
  }

  lemma StartsAfresh(early: bool)
    ensures Next(INITIAL, Start(Started), early) == Some(StartLookup(INITIAL, Started))
    ensures Story(StartLookup(INITIAL, Started), false, false)
  {
  }

  /** How many moves of the parent alone end its call, once the thread is gone. */
  function MovesLeft(p: ParentPc): nat {
    match p
    case Idle | Ready | Finished => 0
    case Polling => 11
    case PollHolding => 10
    case Polled(_) => 9
    case Joining(entry) => if entry then 9 else 8
    case Completing => 8
    case Entering => 7
    case Cancelling => 6
    case CancelHolding => 5
    case Reaping => 4
    case Destroying => 3
    case Freeing => 2
    case Detaching => 2
    case ClosingRead => 1
  }

  lemma {:induction false} MovesEndCall(s: State, early: bool, found: bool, abandoned: bool) returns (moves: seq<Step>)
    requires Invariant(s, early) && Story(s, found, abandoned) && s.thread == Exited
    requires s.parent !in {Ready, Polled(false)}
    ensures (forall move :: move in moves ==> move == ParentMoves) && |moves| == MovesLeft(s.parent)
    ensures Run(s, moves, early).Some? && Quiescent(Run(s, moves, early).value)
    decreases MovesLeft(s.parent)
  {
    hide Invariant, Story;
    moves := [];
    if s.parent != Finished {
      MoveIsNearer(s, early, found, abandoned);
      var s' := ParentNext(s, early).value;
      StepKeepsInvariant(s, ParentMoves, early);
      StepKeepsStory(s, ParentMoves, early, found, abandoned);
      moves := MovesEndCall(s', early, found, abandoned);
      RunCons(s, ParentMoves, moves, early);
      moves := [ParentMoves] + moves;
    }
  }

  lemma MoveIsNearer(s: State, early: bool, found: bool, abandoned: bool)
    requires Invariant(s, early) && Story(s, found, abandoned) && s.thread == Exited
    requires s.parent !in {Ready, Finished, Polled(false)}
    ensures ParentNext(s, early).Some?
    ensures var s' := ParentNext(s, early).value;
            && s'.thread == Exited && s'.parent !in {Ready, Polled(false)}
            && MovesLeft(s'.parent) == MovesLeft(s.parent) - 1
  {
    Holder(s.lock);
  }

  lemma Holder(lock: Option<Party>)
    ensures lock == None || lock == Some(Parent) || lock == Some(Thread)
  {
    match lock {
      case None =>
      case Some(p) => match p { case Parent => case Thread => }
    }
  }

  /** Once the thread has ended, a call of the parent comes to its end by the parent's moves alone; asking for the
      result then gives the list, if there is one, and any other call frees it. */
  lemma CallEnds(steps: seq<Step>, early: bool, call: Step) returns (moves: seq<Step>)
    requires Run(INITIAL, [Start(Started)] + steps, early).Some?
    requires var s := Run(INITIAL, [Start(Started)] + steps, early).value; s.parent == Ready && s.thread == Exited
    requires call in {Poll, Wait(true), Wait(false), Cancel}
    ensures (forall move :: move in moves ==> move == ParentMoves) && |moves| <= 11
    ensures var s := Run(Run(INITIAL, [Start(Started)] + steps, early).value, [call] + moves, early);
            && s.Some? && s.value.parent == Finished
            && s.value.handed == (if Found(steps) && call in {Poll, Wait(true)} then 1 else 0)
            && s.value.released == (if Found(steps) && call in {Cancel, Wait(false)} then 1 else 0)
  {
    hide Story, Invariant, ParentNext;
    var s := StartedRun(steps, early);
    var abandoned := Abandoned(steps);
    assert !abandoned by { ReadyIsNotAbandoned(s, Found(steps), abandoned); }
    StepKeepsInvariant(s, call, early);
    StepKeepsStory(s, call, early, Found(steps), false);
    var s' := Next(s, call, early).value;
    moves := MovesEndCall(s', early, Found(steps), Abandons(call));
    RunCons(s, call, moves, early);
    RunKeepsInvariant(s', moves, early);
    RunKeepsStory(s', moves, early, Found(steps), Abandons(call));
    EndOfStory(Run(s', moves, early).value, early, Found(steps), Abandons(call));
  }

  lemma StartedRun(steps: seq<Step>, early: bool) returns (s: State)
    requires Run(INITIAL, [Start(Started)] + steps, early).Some?
    ensures s == Run(INITIAL, [Start(Started)] + steps, early).value
    ensures Invariant(s, early) && Story(s, Found(steps), Abandoned(steps))
  {
    hide Next, ParentNext;
    assert ([Start(Started)] + steps)[1..] == steps;
    InitialInvariant(early);
    StepKeepsInvariant(INITIAL, Start(Started), early);
    StartsAfresh(early);
    s := StartLookup(INITIAL, Started);
    RunKeepsStory(s, steps, early, false, false);
    RunKeepsInvariant(s, steps, early);
    s := Run(s, steps, early).value;
  }

  lemma ReadyIsNotAbandoned(s: State, found: bool, abandoned: bool)
    requires Story(s, found, abandoned) && s.parent == Ready
    ensures !abandoned
  {
  }

  lemma EndOfStory(s: State, early: bool, found: bool, abandoned: bool)
    requires Invariant(s, early) && Story(s, found, abandoned) && Quiescent(s)
    ensures s.handed == (if found && !abandoned then 1 else 0) && s.released == (if found && abandoned then 1 else 0)
  {
  }

  /** When the parent takes the result, the thread is through with it. */
  lemma ParentTakesSettledResult(steps: seq<Step>, early: bool)
    requires Run(INITIAL, steps, early).Some?
    ensures var s := Run(INITIAL, steps, early).value;
            s.parent == Completing ==> s.live && s.thread in {Signalling, Exited}
  {
    InitialInvariant(early);
    RunKeepsInvariant(INITIAL, steps, early);
  }

  /** While a call is in progress and the name server answers, someone can always move. */
  lemma NobodyIsStuck(steps: seq<Step>, early: bool)
    requires Run(INITIAL, steps, early).Some?
    ensures var s := Run(INITIAL, steps, early).value;
            !Quiescent(s) && s.parent != Idle && s.parent != Ready ==>
              || Next(s, ParentMoves, early).Some? || Next(s, ThreadMoves, early).Some?
              || Next(s, ThreadResolves(true), early).Some?
  {
    InitialInvariant(early);
    RunKeepsInvariant(INITIAL, steps, early);
    var s := Run(INITIAL, steps, early).value;
    if !Quiescent(s) && s.parent != Idle && s.parent != Ready { SomeoneMoves(s, early); }
  }

  lemma SomeoneMoves(s: State, early: bool)
    requires Invariant(s, early) && !Quiescent(s) && s.parent != Idle && s.parent != Ready
    ensures || Next(s, ParentMoves, early).Some? || Next(s, ThreadMoves, early).Some?
            || Next(s, ThreadResolves(true), early).Some?
  {
    assert s.lock.Some? ==> s.lock.value.Parent? || s.lock.value.Thread?;
    if s.thread == Resolving {
      assert Next(s, ThreadResolves(true), early).Some?;
    } else if s.thread in {Holding, Signalling, Late, Emptied} {
      assert Next(s, ThreadMoves, early).Some?;
    } else if s.thread == Resolved && s.lock.None? {
      assert Next(s, ThreadMoves, early).Some?;
    } else if s.thread == Resolved {
      assert s.lock == Some(Parent);
      assert Next(s, ParentMoves, early).Some?;
    } else {
      assert s.thread in {NotStarted, Exited};
      assert s.lock != Some(Thread);
      assert s.parent != Finished;
      assert Next(s, ParentMoves, early).Some?;
    }
  }

  /** The read end of the socket pair is closed once, unless the host name could not be copied: then it is lost. */
  ghost predicate ReadEnd(s: State, outcome: StartOutcome) {
    s.parent != Idle && (s.parent == Finished ==> s.readClosed == if outcome == HostnameCopyFails then 0 else 1)
    && (outcome == HostnameCopyFails ==> s.parent == Finished)
    && (s.parent != Finished ==> s.readClosed == 0)
  }

  lemma ParentKeepsReadEnd(s: State, early: bool, outcome: StartOutcome)
    requires ReadEnd(s, outcome) && ParentNext(s, early).Some?
    ensures ReadEnd(ParentNext(s, early).value, outcome)
  {
  }

  lemma ThreadKeepsReadEnd(s: State, outcome: StartOutcome)
    requires ReadEnd(s, outcome) && ThreadNext(s).Some?
    ensures ReadEnd(ThreadNext(s).value, outcome)
  {
  }

  lemma StepKeepsReadEnd(s: State, step: Step, early: bool, outcome: StartOutcome)
    requires ReadEnd(s, outcome) && Next(s, step, early).Some?
    ensures ReadEnd(Next(s, step, early).value, outcome)
  {
    hide ParentNext, ThreadNext;
    match step
    case ParentMoves => ParentKeepsReadEnd(s, early, outcome);
    case ThreadMoves => ThreadKeepsReadEnd(s, outcome);
    case _ =>
  }

  lemma {:induction false} RunKeepsReadEnd(s: State, steps: seq<Step>, early: bool, outcome: StartOutcome)
    requires ReadEnd(s, outcome) && Run(s, steps, early).Some?
    ensures ReadEnd(Run(s, steps, early).value, outcome)
    decreases |steps|
  {
    hide ReadEnd, Next;
    if steps != [] {
      StepKeepsReadEnd(s, steps[0], early, outcome);
      RunKeepsReadEnd(Next(s, steps[0], early).value, steps[1..], early, outcome);
    }
  }

  lemma ReadEndClosedUnlessCopyFails(outcome: StartOutcome, steps: seq<Step>, early: bool)
    requires Run(INITIAL, [Start(outcome)] + steps, early).Some?
    ensures var s := Run(INITIAL, [Start(outcome)] + steps, early).value;
            Quiescent(s) ==> (s.readClosed == 1 <==> outcome != HostnameCopyFails)
  {
    assert ([Start(outcome)] + steps)[1..] == steps;
    RunKeepsReadEnd(StartLookup(INITIAL, outcome), steps, early, outcome);
  }

  /** The parent, told that the thread was still at work, reads the handle when the thread is already gone. */
  predicate DetachesTooLate(s: State, steps: seq<Step>)
    requires Run(s, steps, false).Some?
    decreases |steps|
  {
    steps != []
    && ((steps[0] == ParentMoves && s.parent == Detaching && s.thread == Exited)
        || DetachesTooLate(Next(s, steps[0], false).value, steps[1..]))
  }

  lemma {:induction false} StaleIffTooLate(s: State, steps: seq<Step>)
    requires Invariant(s, false) && Run(s, steps, false).Some?
    ensures Run(s, steps, false).value.stale == {} <==> s.stale == {} && !DetachesTooLate(s, steps)
    decreases |steps|
  {
    if steps != [] {
      var s' := Next(s, steps[0], false).value;
      StepKeepsInvariant(s, steps[0], false);
      StaleStep(s, steps[0]);
      StaleIffTooLate(s', steps[1..]);
    }
  }

  lemma StaleStep(s: State, step: Step)
    requires Invariant(s, false) && Next(s, step, false).Some?
    ensures Next(s, step, false).value.stale == {}
            <==> s.stale == {} && !(step == ParentMoves && s.parent == Detaching && s.thread == Exited)
  {
  }

  /** As written, the only access to freed memory is the handle read, and it happens exactly when that comes too
      late. */
  lemma OnlyTheHandleReadIsStale(steps: seq<Step>)
    requires Run(INITIAL, steps, false).Some?
    ensures Run(INITIAL, steps, false).value.stale <= {HandleRead}
    ensures Run(INITIAL, steps, false).value.stale == {} <==> !DetachesTooLate(INITIAL, steps)
  {
    InitialInvariant(false);
    RunKeepsInvariant(INITIAL, steps, false);
    StaleIffTooLate(INITIAL, steps);
  }

  /** With the handle read before the mutex is released, nothing freed is ever accessed. */
  lemma EarlyReadIsSafe(steps: seq<Step>)
    requires Run(INITIAL, steps, true).Some?
    ensures Run(INITIAL, steps, true).value.stale == {}
  {
    InitialInvariant(true);
    RunKeepsInvariant(INITIAL, steps, true);
  }

  lemma RunCons(s: State, step: Step, rest: seq<Step>, early: bool)
    requires Next(s, step, early).Some?
    ensures Run(s, [step] + rest, early) == Run(Next(s, step, early).value, rest, early)
  {
    assert ([step] + rest)[1..] == rest;
  }

  const CANCELLED_IN_TIME: State := StartLookup(INITIAL, Started).(parent := Detaching, done := true)

  const GONE_THREAD: State :=
    CANCELLED_IN_TIME.(thread := Exited, lists := 1, released := 1, destroyed := 1, writeClosed := 1, freed := 1,
        live := false)

  /** The thread resolves, finds that it is too late, cleans up and ends. */
  lemma ThreadEnds()
    ensures var s1 := CANCELLED_IN_TIME.(thread := Resolved, res := true, lists := 1);
            var s2 := s1.(thread := Holding, lock := Some(Thread));
            var s3 := s1.(thread := Late);
            var s4 := s1.(thread := Emptied, res := false, released := 1, destroyed := 1, writeClosed := 1);
            && Next(CANCELLED_IN_TIME, ThreadResolves(true), false) == Some(s1)
            && Next(s1, ThreadMoves, false) == Some(s2) && Next(s2, ThreadMoves, false) == Some(s3)
            && Next(s3, ThreadMoves, false) == Some(s4) && Next(s4, ThreadMoves, false) == Some(GONE_THREAD)
  {
  }

  /** Then the parent reads the handle. */
  lemma ParentReadsLate()
    ensures Next(GONE_THREAD, ParentMoves, false)
        == Some(GONE_THREAD.(parent := ClosingRead, detached := 1, stale := {HandleRead}))
  {
    assert {} + {HandleRead} == {HandleRead};
  }

  lemma ThreadEndsFirst() returns (steps: seq<Step>)
    ensures Run(CANCELLED_IN_TIME, steps, false).Some?
        && Run(CANCELLED_IN_TIME, steps, false).value.stale == {HandleRead}
  {
    hide Next;
    ThreadEnds();
    ParentReadsLate();
    var s1 := CANCELLED_IN_TIME.(thread := Resolved, res := true, lists := 1);
    var s2 := s1.(thread := Holding, lock := Some(Thread));
    var s3 := s1.(thread := Late);
    var s4 := s1.(thread := Emptied, res := false, released := 1, destroyed := 1, writeClosed := 1);
    steps := [];
    assert Run(GONE_THREAD.(parent := ClosingRead, detached := 1, stale := {HandleRead}), steps, false).Some?;
    hide Run;
    RunCons(GONE_THREAD, ParentMoves, steps, false);
    steps := [ParentMoves] + steps;
    RunCons(s4, ThreadMoves, steps, false);
    steps := [ThreadMoves] + steps;
    RunCons(s3, ThreadMoves, steps, false);
    steps := [ThreadMoves] + steps;
    RunCons(s2, ThreadMoves, steps, false);
    steps := [ThreadMoves] + steps;
    RunCons(s1, ThreadMoves, steps, false);
    steps := [ThreadMoves] + steps;
    RunCons(CANCELLED_IN_TIME, ThreadResolves(true), steps, false);
    steps := [ThreadResolves(true)] + steps;
  }

  /** A run in which the thread finishes between the release of the mutex and the handle read. */
  lemma HandleReadCanBeStale() returns (steps: seq<Step>)
    ensures Run(INITIAL, steps, false).Some? && Run(INITIAL, steps, false).value.stale == {HandleRead}
  {
    var s1 := StartLookup(INITIAL, Started);
    var s2 := s1.(parent := Entering);
    var s3 := s1.(parent := Cancelling);
    var s4 := s1.(parent := CancelHolding, lock := Some(Parent));
    assert Next(INITIAL, Start(Started), false) == Some(s1);
    assert Next(s1, Cancel, false) == Some(s2);
    assert Next(s2, ParentMoves, false) == Some(s3);
    assert Next(s3, ParentMoves, false) == Some(s4);
    assert Next(s4, ParentMoves, false) == Some(CANCELLED_IN_TIME);
    hide Run, Next;
    steps := ThreadEndsFirst();
    RunCons(s4, ParentMoves, steps, false);
    steps := [ParentMoves] + steps;
    RunCons(s3, ParentMoves, steps, false);
    steps := [ParentMoves] + steps;
    RunCons(s2, ParentMoves, steps, false);
    steps := [ParentMoves] + steps;
    RunCons(s1, Cancel, steps, false);
    steps := [Cancel] + steps;
    RunCons(INITIAL, Start(Started), steps, false);
    steps := [Start(Started)] + steps;
  }
}
