/** Starting, joining and destroying one `Thread`: the steps of the thread that owns the object and of the
    thread it starts, in any order. The semaphore and the pthread calls are taken by specification. */
module ThreadStart {
  import opened Wrappers

  /** The started thread, in `run`. */
  datatype Runner =
    | NotStarted
    | Entered        // t_thread and t_thread_name come next
    | Named          // m_id comes next
    | Identified     // the thread's system name comes next
    | Titled         // the swap of the callback comes next
    | Swapped        // the notify comes next
    | Posted         // the callback comes next
    | Finished

  /** The owner: the constructor, then calls of `join`, then the destructor. */
  datatype Owner =
    | Constructing             // before pthread_create
    | Throwing                 // pthread_create has failed, the constructor throws
    | Created                  // the new thread exists, its handle is not yet stored
    | Waiting                  // in the semaphore's wait
    | Abandoned(at: Runner)    // the wait has failed while `run` stood at `at`, the constructor throws
    | Ready                    // the constructor has returned, no call is running
    | Joining                  // in pthread_join
    | JoinReturned             // pthread_join has succeeded, m_thread is not yet reset
    | Detached                 // in the destructor, past the detach
    | Gone                     // the object has been destroyed

  datatype Handle = NoHandle | Running | JoinedHandle | DetachedHandle

  /** `thread` is `m_thread != 0`, `callback` says that `m_callback` is not empty, and `local` that `run`'s
      own callback is not. `runs` counts calls of the callback, `reclaims` how often the handle was given
      up, and `deadTouch` records an access of `run` to the object after its destruction. */
  datatype State = State(
    owner: Owner, runner: Runner,
    thread: bool, id: bool, callback: bool, sem: nat,
    local: bool, handle: Handle,
    runs: nat, reclaims: nat, deadTouch: bool)

  datatype Act =
    | CreateFails | CreateSucceeds | StoreHandle | Wait | WaitFails
    | CallJoin | JoinSucceeds | JoinFails | ResetHandle
    | Destruct | Free
    | RunStep

  /** A constructor that throws destroys the members without running the destructor's body. */
  predicate Alive(owner: Owner) {
    !owner.Gone? && !owner.Throwing? && !owner.Abandoned?
  }

  /** The next step of `run`; every step before the callback touches the object. */
  function RunNext(s: State): State {
    var touched := s.(deadTouch := s.deadTouch || !Alive(s.owner));
    match s.runner
    case NotStarted => s
    case Entered => touched.(runner := Named)
    case Named => touched.(runner := Identified, id := true)
    case Identified => touched.(runner := Titled)
    case Titled => touched.(runner := Swapped, local := s.callback, callback := s.local)
    case Swapped => touched.(runner := Posted, sem := s.sem + 1)
    case Posted => s.(runner := Finished, runs := if s.local then s.runs + 1 else s.runs)
    case Finished => s
  }

  /** One step of the owner; a step that is not its next one, or that has to wait, leaves the state as
      it is. `sem_wait` may fail at any time, as when a signal interrupts it. A failed join throws and keeps the
      handle. */
  function OwnerNext(s: State, a: Act): State {
    match (s.owner, a)
    case (Constructing, CreateFails) => s.(owner := Throwing)
    case (Constructing, CreateSucceeds) => s.(owner := Created, runner := Entered, handle := Running)
    case (Created, StoreHandle) => s.(owner := Waiting, thread := true)
    case (Waiting, Wait) => if s.sem > 0 then s.(owner := Ready, sem := s.sem - 1) else s
    case (Waiting, WaitFails) => s.(owner := Abandoned(s.runner))
    case (Ready, CallJoin) => if s.thread then s.(owner := Joining) else s
    case (Joining, JoinSucceeds) =>
      if s.runner == Finished && s.handle == Running
      then s.(owner := JoinReturned, handle := JoinedHandle, reclaims := s.reclaims + 1) else s
    case (Joining, JoinFails) => s.(owner := Ready)
    case (JoinReturned, ResetHandle) => s.(owner := Ready, thread := false)
    case (Ready, Destruct) =>
      if s.thread then s.(owner := Detached, handle := DetachedHandle, reclaims := s.reclaims + 1)
      else s.(owner := Detached)
    case (Detached, Free) => s.(owner := Gone)
    case _ => s
  }

  /** One step of either thread. */
  function Do(s: State, a: Act): State {
    if a.RunStep? then RunNext(s) else OwnerNext(s, a)
  }

  function Run(s: State, schedule: seq<Act>): State {
    if schedule == [] then s else Do(Run(s, schedule[..|schedule| - 1]), Last(schedule))
  }

  /** A constructor called with a callback. */
  const START := State(Constructing, NotStarted, false, false, true, 0, false, NoHandle, 0, 0, false)

  predicate Started(owner: Owner) {
    !owner.Constructing? && !owner.Throwing?
  }

  /** The constructor has returned. */
  predicate Returned(owner: Owner) {
    Started(owner) && !owner.Created? && !owner.Waiting? && !owner.Abandoned?
  }

  predicate PastNotify(runner: Runner) {
    runner.Posted? || runner.Finished?
  }

  predicate PastSwap(runner: Runner) {
    runner.Swapped? || PastNotify(runner)
  }

  /** How many steps of `run` are left before the notify. */
  function StepsToNotify(runner: Runner): nat {
    match runner
    case Entered => 5
    case Named => 4
    case Identified => 3
    case Titled => 2
    case Swapped => 1
    case _ => 0
  }

  /** The two threads agree on whether the second exists, and the semaphore counts one post, taken by
      one wait. */
  predicate HandshakeInv(s: State) {
    && (s.runner.NotStarted? <==> !Started(s.owner))
    && s.sem == (if PastNotify(s.runner) && !Returned(s.owner) then 1 else 0)
    && (Returned(s.owner) ==> PastNotify(s.runner))
  }

  predicate RunInv(s: State) {
    && (s.id <==> !(s.runner.NotStarted? || s.runner.Entered? || s.runner.Named?))
    && s.local == PastSwap(s.runner) && s.callback == !PastSwap(s.runner)
    && s.runs == (if s.runner.Finished? then 1 else 0)
    && (s.deadTouch <==> s.owner.Abandoned? && !PastNotify(s.owner.at) && s.runner != s.owner.at)
    && (s.owner.Abandoned? && PastNotify(s.owner.at) ==> PastNotify(s.runner))
    && (s.owner.Abandoned? ==> StepsToNotify(s.runner) <= StepsToNotify(s.owner.at) && !s.owner.at.NotStarted?)
  }

  predicate HandleInv(s: State) {
    && s.reclaims == (if s.handle.JoinedHandle? || s.handle.DetachedHandle? then 1 else 0)
    && (s.handle.JoinedHandle? ==> s.runner.Finished?)
    && match s.owner
       case Constructing => s.handle.NoHandle?
       case Throwing => s.handle.NoHandle?
       case Created => s.handle.Running?
       case Waiting => s.handle.Running? && s.thread
       case Abandoned(_) => s.handle.Running?
       case Ready => if s.thread then s.handle.Running? else s.handle.JoinedHandle?
       case Joining => s.handle.Running? && s.thread
       case JoinReturned => s.handle.JoinedHandle?
       case Detached => s.handle.JoinedHandle? || s.handle.DetachedHandle?
       case Gone => s.handle.JoinedHandle? || s.handle.DetachedHandle?
  }

  predicate Inv(s: State) {
    HandshakeInv(s) && RunInv(s) && HandleInv(s)
  }

  lemma RunNextKeepsInv(s: State)
    requires Inv(s)
    ensures Inv(RunNext(s))
  {
    match s.runner {
      case Titled =>
      case Swapped =>
      case Posted =>
      case _ =>
    }
  }

  lemma OwnerKeepsHandshake(s: State, a: Act)
    requires HandshakeInv(s)
    ensures HandshakeInv(OwnerNext(s, a))
  {
    match s.owner {
      case Constructing =>
      case Waiting =>
      case _ =>
    }
  }

  lemma OwnerKeepsRun(s: State, a: Act)
    requires Inv(s)
    ensures RunInv(OwnerNext(s, a))
  {
    match s.owner {
      case Constructing =>
      case Waiting =>
      case _ =>
    }
  }

  lemma OwnerKeepsHandle(s: State, a: Act)
    requires HandleInv(s)
    ensures HandleInv(OwnerNext(s, a))
  {
  }

  lemma {:induction false} StepKeepsInv(s: State, a: Act)
    requires Inv(s)
    ensures Inv(Do(s, a))
  {
    hide HandshakeInv, RunInv, HandleInv, RunNext, OwnerNext;
    if a.RunStep? {
      RunNextKeepsInv(s);
    } else {
      OwnerKeepsHandshake(s, a);
      OwnerKeepsRun(s, a);
      OwnerKeepsHandle(s, a);
    }
  }

  lemma {:induction false} RunKeepsInv(schedule: seq<Act>)
    ensures Inv(Run(START, schedule))
  {
    hide Do;
    if schedule != [] {
      RunKeepsInv(schedule[..|schedule| - 1]);
      StepKeepsInv(Run(START, schedule[..|schedule| - 1]), Last(schedule));
    }
  }

  /** In every interleaving, also if the wait fails: when the constructor has returned, `run` has set the id
      and taken the callback over. As long as `run` has not touched a destroyed object, the callback runs
      at most once, not before the notify, and exactly once by the time the thread finishes. And `run`
      touches one if and only if the wait failed before the notify and `run` has gone on since. */
  lemma {:induction false} StartHandshake(schedule: seq<Act>)
    ensures var s := Run(START, schedule);
            && (Returned(s.owner) ==> s.id && !s.callback && PastNotify(s.runner))
            && (!s.deadTouch ==>
                  s.runs <= 1 && (s.runs == 1 <==> s.runner.Finished?) && (s.runs > 0 ==> PastNotify(s.runner)))
            && (s.deadTouch <==> s.owner.Abandoned? && !PastNotify(s.owner.at) && s.runner != s.owner.at)
  {
    hide Run;
    RunKeepsInv(schedule);
  }

  /** The object's life has ended. */
  predicate Ended(owner: Owner) {
    owner.Throwing? || owner.Abandoned? || owner.Gone?
  }

  /** In every interleaving: a handle is given up at most once, and by a join only after the thread has
      finished; one that was never created is never given up. When the object's life has ended, the handle
      is left over if and only if the wait failed; if it was created and the wait did not fail, it has been
      given up exactly once. */
  lemma {:induction false} HandleReclaimedOnce(schedule: seq<Act>)
    ensures var s := Run(START, schedule);
            && s.reclaims <= 1
            && (s.handle.JoinedHandle? ==> s.runner.Finished?)
            && (s.owner.Throwing? ==> s.handle.NoHandle? && s.reclaims == 0)
            && (Ended(s.owner) ==> (s.handle.Running? <==> s.owner.Abandoned?))
            && (s.owner.Abandoned? ==> s.reclaims == 0)
            && (s.owner.Gone? ==> s.reclaims == 1)
  {
    hide Run;
    RunKeepsInv(schedule);
  }

  /** The wait has failed only if it is made to; after that the owner takes no step. */
  lemma {:induction false} OnlyFailuresAbandon(schedule: seq<Act>)
    ensures Run(START, schedule).owner.Abandoned? ==> WaitFails in schedule
  {
    if schedule != [] {
      var before, a := schedule[..|schedule| - 1], Last(schedule);
      OnlyFailuresAbandon(before);
      assert schedule == before + [a];
      AbandonedBy(Run(START, before), a);
      hide Do;
    }
  }

  lemma AbandonedBy(s: State, a: Act)
    ensures Do(s, a).owner.Abandoned? ==> a == WaitFails || s.owner.Abandoned?
  {
    if !a.RunStep? {
      hide RunNext;
      match s.owner {
        case Waiting =>
        case _ =>
      }
    }
  }

  /** If the wait never fails, `run` never touches a destroyed object, the callback runs exactly once, after
      the notify, and an object that is gone has given its handle up exactly once. */
  lemma {:induction false} SafeUnlessWaitFails(schedule: seq<Act>)
    requires WaitFails !in schedule
    ensures var s := Run(START, schedule);
            && !s.deadTouch
            && s.runs <= 1 && (s.runs == 1 <==> s.runner.Finished?) && (s.runs > 0 ==> PastNotify(s.runner))
            && (Ended(s.owner) ==> !s.handle.Running? && s.reclaims == if s.owner.Gone? then 1 else 0)
  {
    hide Run, Ended;
    OnlyFailuresAbandon(schedule);
    StartHandshake(schedule);
    HandleReclaimedOnce(schedule);
    EndedWays(Run(START, schedule).owner);
  }

  lemma EndedWays(owner: Owner)
    ensures Ended(owner) <==> owner.Throwing? || owner.Abandoned? || owner.Gone?
  {
  }

  lemma {:induction false} RunSnoc(schedule: seq<Act>, a: Act)
    ensures Run(START, schedule + [a]) == Do(Run(START, schedule), a)
  {
    assert (schedule + [a])[..|schedule|] == schedule;
  }

  /** Both do happen: after an interrupted wait, `run` goes on with an object that does not exist, and
      nobody is left to join or detach it. */
  lemma {:induction false} InterruptedWait()
    ensures var s := Run(START, [CreateSucceeds] + [StoreHandle] + [WaitFails] + [RunStep]);
            s.deadTouch && s.handle.Running? && s.reclaims == 0 && Ended(s.owner)
  {
    RunSnoc([], CreateSucceeds);
    assert [] + [CreateSucceeds] == [CreateSucceeds];
    RunSnoc([CreateSucceeds], StoreHandle);
    RunSnoc([CreateSucceeds] + [StoreHandle], WaitFails);
    RunSnoc([CreateSucceeds] + [StoreHandle] + [WaitFails], RunStep);
  }

  // ---------- the wait does not block for ever ----------

  function RunSteps(s: State, n: nat): State
    decreases n
  {
    if n == 0 then s else RunSteps(RunNext(s), n - 1)
  }

  lemma {:induction false} RunStepsReachNotify(s: State)
    requires Inv(s) && s.owner.Waiting?
    ensures var s' := RunSteps(s, StepsToNotify(s.runner));
            s'.owner.Waiting? && s'.sem == 1
    decreases StepsToNotify(s.runner)
  {
    if StepsToNotify(s.runner) > 0 {
      StepKeepsInv(s, RunStep);
      assert Do(s, RunStep) == RunNext(s);
      RunStepsReachNotify(RunNext(s));
    }
  }

  /** From every reachable state in which the constructor waits, the started thread alone gets it to
      return, in at most six further steps. */
  lemma {:induction false} ConstructorCanReturn(schedule: seq<Act>)
    requires Run(START, schedule).owner.Waiting?
    ensures var s := Run(START, schedule);
            Do(RunSteps(s, StepsToNotify(s.runner)), Wait).owner == Ready && StepsToNotify(s.runner) <= 5
  {
    RunKeepsInv(schedule);
    RunStepsReachNotify(Run(START, schedule));
  }

  // ---------- every life can be lived to its end ----------

  function StepsToFinish(runner: Runner): nat {
    if runner.NotStarted? || runner.Finished? then 0 else StepsToNotify(runner) + 1
  }

  lemma {:induction false} RunStepsFinish(s: State)
    requires Inv(s) && Started(s.owner)
    ensures var s' := RunSteps(s, StepsToFinish(s.runner));
            Inv(s') && s'.runner.Finished? && s'.owner == s.owner && s'.thread == s.thread && s'.handle == s.handle
    decreases StepsToFinish(s.runner)
  {
    if !s.runner.Finished? {
      StepKeepsInv(s, RunStep);
      assert Do(s, RunStep) == RunNext(s);
      RunStepGoesOn(s);
      RunStepsFinish(RunNext(s));
    }
  }

  /** A step of `run` is always the next one, and leaves the owner's affairs alone. */
  lemma RunStepGoesOn(s: State)
    requires !s.runner.NotStarted? && !s.runner.Finished?
    ensures StepsToFinish(RunNext(s).runner) == StepsToFinish(s.runner) - 1
    ensures RunNext(s).owner == s.owner && RunNext(s).thread == s.thread && RunNext(s).handle == s.handle
  {
    match s.runner {
      case Titled =>
      case Posted =>
      case _ =>
    }
  }

  /** From every reachable state in which the thread exists, it can go on to its end by itself, in at most
      six steps, and its callback has then been called once. */
  lemma {:induction false} RunnerFinishes(schedule: seq<Act>)
    requires Started(Run(START, schedule).owner)
    ensures var s := Run(START, schedule);
            var s' := RunSteps(s, StepsToFinish(s.runner));
            s'.runner.Finished? && s'.runs == 1 && s'.owner == s.owner && StepsToFinish(s.runner) <= 6
  {
    RunKeepsInv(schedule);
    RunStepsFinish(Run(START, schedule));
  }

  /** From every reachable state in which the constructor has returned and the thread has not been joined,
      a join succeeds once the thread has finished; it reclaims the handle, and a second join does nothing.
      A join that fails changes nothing. */
  lemma {:induction false} JoinSucceedsAfterFinish(schedule: seq<Act>)
    requires Run(START, schedule).owner.Ready? && Run(START, schedule).thread
    ensures var s := Run(START, schedule);
            var s1 := Do(s, CallJoin);
            var s2 := Do(Do(RunSteps(s1, StepsToFinish(s1.runner)), JoinSucceeds), ResetHandle);
            && s1.owner.Joining? && Do(s1, JoinFails) == s
            && s2.owner.Ready? && !s2.thread && s2.handle.JoinedHandle? && s2.reclaims == 1 && s2.runs == 1
            && Do(s2, CallJoin) == s2
  {
    var s := Run(START, schedule);
    RunKeepsInv(schedule);
    var s1 := Do(s, CallJoin);
    assert s1 == s.(owner := Joining);
    StepKeepsInv(s, CallJoin);
    RunStepsFinish(s1);
    var end := RunSteps(s1, StepsToFinish(s1.runner));
    hide RunSteps;
    assert end.owner.Joining? && end.runner.Finished? && end.handle.Running? && end.runs == 1;
    StepKeepsInv(end, JoinSucceeds);
  }

  /** From every reachable state in which no call runs, the destructor ends the object's life, with the handle
      given up exactly once: by a join before, or by its detach. */
  lemma {:induction false} DestructorEnds(schedule: seq<Act>)
    requires Run(START, schedule).owner.Ready?
    ensures var s := Run(START, schedule);
            var s' := Do(Do(s, Destruct), Free);
            && s'.owner.Gone? && s'.reclaims == 1
            && (if s.thread then s'.handle.DetachedHandle? else s'.handle.JoinedHandle? && s' == s.(owner := Gone))
  {
    hide RunNext;
    RunKeepsInv(schedule);
  }

  /** The constructor's first steps: it throws if the thread cannot be created, and otherwise comes to wait
      for it with the handle stored. */
  lemma ConstructorStarts()
    ensures Do(START, CreateFails).owner.Throwing? && Do(START, CreateFails).runner.NotStarted?
    ensures var s := Do(Do(START, CreateSucceeds), StoreHandle);
            s.owner.Waiting? && s.thread && s.handle.Running? && s.runner.Entered?
  {
  }
}
