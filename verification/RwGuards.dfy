/** Scoped read and write guards over one reader/writer lock, as interleaved steps of any number of
    threads. The lock is the POSIX one, by specification: a write lock waits for every other holder, a
    read lock waits for a writer, and unlock gives up whatever its caller holds. */
module RwGuards {
  import opened Wrappers

  datatype Kind = ReadGuard | WriteGuard

  /** As in module CasLock, with the lock's own wait in place of the spin. */
  datatype Pc = NoGuard | Acquiring | Acquired | Between | Unlocking | Released

  datatype Local = Local(pc: Pc, kind: Kind, locked: bool, dying: bool)

  /** The lock counts its readers and knows whether there is a writer. */
  datatype State = State(readers: nat, writer: bool, threads: seq<Local>)

  datatype Act =
    | Construct(kind: Kind, garbage: bool)
    | Acquire
    | SetLocked
    | CallLock
    | CallUnlock
    | Destroy
    | Release
    | ResetLocked

  function Put(s: State, t: nat, l: Local): State
    requires t < |s.threads|
  {
    s.(threads := s.threads[t := l])
  }

  function RdLock(s: State, t: nat, l: Local): State
    requires t < |s.threads|
  {
    if s.writer then s else Put(s, t, l).(readers := s.readers + 1)
  }

  function WrLock(s: State, t: nat, l: Local): State
    requires t < |s.threads|
  {
    if s.writer || s.readers > 0 then s else Put(s, t, l).(writer := true)
  }

  /** `pthread_rwlock_unlock` is one call for both kinds of holder: with a writer it ends the writing,
      otherwise it takes one reader away. */
  function Unlock(s: State): State {
    if s.writer then s.(writer := false)
    else if s.readers > 0 then s.(readers := s.readers - 1)
    else s
  }

  /** One step of thread `t`; a step that is not the thread's next one, or that has to wait, leaves the
      state as it is. */
  function Do(s: State, t: nat, a: Act): State {
    if t >= |s.threads| then s else
    var l := s.threads[t];
    match (l.pc, a)
    case (NoGuard, Construct(kind, garbage)) => Put(s, t, Local(Acquiring, kind, garbage, false))
    case (Acquiring, Acquire) =>
      if l.kind == ReadGuard then RdLock(s, t, l.(pc := Acquired)) else WrLock(s, t, l.(pc := Acquired))
    case (Acquired, SetLocked) => Put(s, t, l.(pc := Between, locked := true))
    case (Between, CallLock) => if l.locked then s else Put(s, t, l.(pc := Acquiring))
    case (Between, CallUnlock) => if l.locked then Put(s, t, l.(pc := Unlocking)) else s
    case (Between, Destroy) => Put(s, t, if l.locked then l.(pc := Unlocking, dying := true) else l.(pc := NoGuard))
    case (Unlocking, Release) => Unlock(Put(s, t, l.(pc := Released)))
    case (Released, ResetLocked) => Put(s, t, l.(pc := if l.dying then NoGuard else Between, locked := false))
    case _ => s
  }

  function Run(s: State, schedule: seq<(nat, Act)>): State {
    if schedule == [] then s
    else Do(Run(s, schedule[..|schedule| - 1]), Last(schedule).0, Last(schedule).1)
  }

  predicate Initial(s: State) {
    s.readers == 0 && !s.writer && forall t | 0 <= t < |s.threads| :: s.threads[t].pc == NoGuard
  }

  /** From the successful acquisition to the release. */
  predicate Holds(l: Local, kind: Kind) {
    l.kind == kind && (l.pc.Acquired? || (l.pc.Between? && l.locked) || l.pc.Unlocking?)
  }

  function Holders(threads: seq<Local>, kind: Kind): nat {
    if threads == [] then 0
    else Holders(threads[..|threads| - 1], kind) + if Holds(Last(threads), kind) then 1 else 0
  }

  lemma {:induction false} HoldersAfter(threads: seq<Local>, t: nat, l: Local, kind: Kind)
    requires t < |threads|
    ensures Holders(threads[t := l], kind) + (if Holds(threads[t], kind) then 1 else 0)
            == Holders(threads, kind) + if Holds(l, kind) then 1 else 0
  {
    hide Holds;
    var n := |threads| - 1;
    if t < n {
      HoldersAfter(threads[..n], t, l, kind);
      assert threads[t := l][..n] == threads[..n][t := l];
    } else {
      assert threads[t := l][..n] == threads[..n];
    }
  }

  /** One holder is counted, and two different ones twice. */
  lemma {:induction false} HoldersCount(threads: seq<Local>, t: nat, u: nat, kind: Kind)
    requires t < |threads| && u < |threads| && Holds(threads[t], kind) && Holds(threads[u], kind)
    ensures Holders(threads, kind) >= if t == u then 1 else 2
  {
    hide Holds;
    var n := |threads| - 1;
    if t < n && u < n {
      HoldersCount(threads[..n], t, u, kind);
    } else if t < n {
      HoldersCount(threads[..n], t, t, kind);
    } else if u < n {
      HoldersCount(threads[..n], u, u, kind);
    }
  }

  /** The lock's books agree with the guards: it counts exactly the read guards that hold it, it has a
      writer exactly while one write guard does, and never both. */
  ghost predicate Inv(s: State) {
    && s.readers == Holders(s.threads, ReadGuard)
    && (if s.writer then 1 else 0) == Holders(s.threads, WriteGuard)
    && !(s.writer && s.readers > 0)
  }

  lemma StepChanges(s: State, t: nat, a: Act)
    requires t < |s.threads|
    requires Holds(s.threads[t], ReadGuard) ==> s.readers > 0 && !s.writer
    requires Holds(s.threads[t], WriteGuard) ==> s.writer && s.readers == 0
    requires !(s.writer && s.readers > 0)
    ensures var s', l := Do(s, t, a), s.threads[t];
            |s'.threads| == |s.threads| && var l' := s'.threads[t];
            && s'.threads == s.threads[t := l']
            && s'.readers - s.readers
               == (if Holds(l', ReadGuard) then 1 else 0) - (if Holds(l, ReadGuard) then 1 else 0)
            && (if s'.writer then 1 else 0) - (if s.writer then 1 else 0)
               == (if Holds(l', WriteGuard) then 1 else 0) - (if Holds(l, WriteGuard) then 1 else 0)
            && !(s'.writer && s'.readers > 0)
  {
    match s.threads[t].pc {
      case Acquiring =>
      case Unlocking =>
      case _ =>
    }
  }

  lemma {:induction false} StepKeepsInv(s: State, t: nat, a: Act)
    requires Inv(s)
    ensures Inv(Do(s, t, a))
  {
    if t < |s.threads| {
      hide Do, Holders, Holds;
      if Holds(s.threads[t], ReadGuard) {
        HoldersCount(s.threads, t, t, ReadGuard);
      }
      if Holds(s.threads[t], WriteGuard) {
        HoldersCount(s.threads, t, t, WriteGuard);
      }
      StepChanges(s, t, a);
      var l' := Do(s, t, a).threads[t];
      HoldersAfter(s.threads, t, l', ReadGuard);
      HoldersAfter(s.threads, t, l', WriteGuard);
    }
  }

  lemma {:induction false} NoHolders(threads: seq<Local>, kind: Kind)
    requires forall t | 0 <= t < |threads| :: threads[t].pc == NoGuard
    ensures Holders(threads, kind) == 0
  {
    if threads != [] {
      NoHolders(threads[..|threads| - 1], kind);
    }
  }

  lemma {:induction false} RunKeepsInv(s: State, schedule: seq<(nat, Act)>)
    requires Initial(s)
    ensures Inv(Run(s, schedule))
  {
    hide Do, Holders;
    if schedule == [] {
      NoHolders(s.threads, ReadGuard);
      NoHolders(s.threads, WriteGuard);
    } else {
      RunKeepsInv(s, schedule[..|schedule| - 1]);
      StepKeepsInv(Run(s, schedule[..|schedule| - 1]), Last(schedule).0, Last(schedule).1);
    }
  }

  /** In every interleaving, two threads that hold the lock at once are both readers. */
  lemma {:induction false} WritersAreAlone(s: State, schedule: seq<(nat, Act)>, t: nat, u: nat, kind: Kind)
    requires Initial(s) && t != u && t < |Run(s, schedule).threads| && u < |Run(s, schedule).threads|
    ensures var after := Run(s, schedule);
            !(Holds(after.threads[t], WriteGuard) && Holds(after.threads[u], kind))
  {
    var after := Run(s, schedule);
    RunKeepsInv(s, schedule);
    hide Run, Holders, Holds;
    if Holds(after.threads[t], WriteGuard) && Holds(after.threads[u], kind) {
      HoldersCount(after.threads, t, t, WriteGuard);
      HoldersCount(after.threads, u, u, kind);
      if kind == WriteGuard {
        HoldersCount(after.threads, t, u, WriteGuard);
      }
    }
  }

  /** In every interleaving the shared `unlock` gives up exactly what its caller holds: the lock is free
      once no guard holds it. */
  lemma {:induction false} LockIsFreed(s: State, schedule: seq<(nat, Act)>)
    requires Initial(s)
    requires forall t | 0 <= t < |Run(s, schedule).threads| :: Run(s, schedule).threads[t].pc == NoGuard
    ensures Run(s, schedule).readers == 0 && !Run(s, schedule).writer
  {
    RunKeepsInv(s, schedule);
    NoHolders(Run(s, schedule).threads, ReadGuard);
    NoHolders(Run(s, schedule).threads, WriteGuard);
  }

  // ---------- guards do get the lock, share it, and give it up ----------

  /** When a guard's acquisition goes through: a reader's beside any number of readers, a writer's when no one
      holds the lock. Otherwise it waits. */
  lemma {:induction false} AcquireGoesThrough(s: State, t: nat)
    requires t < |s.threads| && s.threads[t].pc.Acquiring?
    ensures var reading := s.threads[t].kind == ReadGuard;
            var s' := Do(s, t, Acquire);
            if s.writer || (!reading && s.readers > 0) then s' == s
            else && s'.threads == s.threads[t := s.threads[t].(pc := Acquired)]
                 && Holds(s'.threads[t], s.threads[t].kind)
                 && s'.readers == (if reading then s.readers + 1 else s.readers) && s'.writer == !reading
  {
  }

  /** Making a guard that gets the lock at once, and destroying it, leaves the lock as it was; between the two
      its thread holds the lock. */
  lemma {:induction false} GuardLife(s: State, t: nat, kind: Kind, garbage: bool)
    requires t < |s.threads| && s.threads[t].pc.NoGuard? && !s.writer && (kind == WriteGuard ==> s.readers == 0)
    ensures var made := Do(Do(Do(s, t, Construct(kind, garbage)), t, Acquire), t, SetLocked);
            var gone := Do(Do(Do(made, t, Destroy), t, Release), t, ResetLocked);
            && made == Put(s, t, Local(Between, kind, true, false)).(
                 readers := if kind == ReadGuard then s.readers + 1 else s.readers, writer := kind == WriteGuard)
            && Holds(made.threads[t], kind)
            && gone == Put(s, t, Local(NoGuard, kind, false, true))
  {
    var readers := if kind == ReadGuard then s.readers + 1 else s.readers;
    MakeGuard(s, t, kind, garbage);
    var made := Put(s, t, Local(Between, kind, true, false)).(readers := readers, writer := kind == WriteGuard);
    var s1 := Do(made, t, Destroy);
    assert s1.threads == s.threads[t := Local(Unlocking, kind, true, true)];
    var s2 := Do(s1, t, Release);
    assert s2.threads == s.threads[t := Local(Released, kind, true, true)];
    assert Do(s2, t, ResetLocked).threads == s.threads[t := Local(NoGuard, kind, false, true)];
  }

  lemma {:induction false} MakeGuard(s: State, t: nat, kind: Kind, garbage: bool)
    requires t < |s.threads| && s.threads[t].pc.NoGuard? && !s.writer && (kind == WriteGuard ==> s.readers == 0)
    ensures Do(Do(Do(s, t, Construct(kind, garbage)), t, Acquire), t, SetLocked)
            == Put(s, t, Local(Between, kind, true, false)).(
                 readers := if kind == ReadGuard then s.readers + 1 else s.readers, writer := kind == WriteGuard)
  {
    var s1 := Do(s, t, Construct(kind, garbage));
    assert s1 == Put(s, t, Local(Acquiring, kind, garbage, false));
    var s2 := Do(s1, t, Acquire);
    assert s2.threads == s.threads[t := Local(Acquired, kind, garbage, false)];
    assert Do(s2, t, SetLocked).threads == s.threads[t := Local(Between, kind, true, false)];
  }

  /** Calls that are not needed do nothing, and an unlocked guard is destroyed without touching the lock. */
  lemma {:induction false} IdleCalls(s: State, t: nat)
    requires t < |s.threads| && s.threads[t].pc.Between?
    ensures s.threads[t].locked ==> Do(s, t, CallLock) == s
    ensures !s.threads[t].locked ==>
              && Do(s, t, CallUnlock) == s && Do(s, t, Destroy) == Put(s, t, s.threads[t].(pc := NoGuard))
              && Do(s, t, CallLock) == Put(s, t, s.threads[t].(pc := Acquiring))
  {
  }

  /** The guard's own `unlock` leaves it there, unlocked. */
  lemma {:induction false} UnlockKeepsGuard(s: State, t: nat)
    requires t < |s.threads| && s.threads[t].pc.Between? && s.threads[t].locked && !s.threads[t].dying
    ensures Do(Do(Do(s, t, CallUnlock), t, Release), t, ResetLocked)
            == Unlock(Put(s, t, s.threads[t].(locked := false)))
  {
    var l := s.threads[t];
    var s1 := Do(s, t, CallUnlock);
    assert s1 == Put(s, t, l.(pc := Unlocking));
    var s2 := Do(s1, t, Release);
    assert s2.threads == s.threads[t := l.(pc := Released)];
    assert Do(s2, t, ResetLocked).threads == s.threads[t := l.(locked := false)];
  }

  /** The steps of a holder up to the release, if it unlocks as soon as it can. */
  function Unlocked(s: State, t: nat): State
    requires t < |s.threads|
  {
    match s.threads[t].pc
    case Acquired => Do(Do(Do(s, t, SetLocked), t, CallUnlock), t, Release)
    case Between => Do(Do(s, t, CallUnlock), t, Release)
    case _ => Do(s, t, Release)
  }

  /** No deadlock: in every reachable state a thread that holds the lock can give up its hold by itself, in at
      most three steps, and the other threads keep theirs. */
  lemma {:induction false} HolderCanRelease(s: State, schedule: seq<(nat, Act)>, t: nat, kind: Kind)
    requires Initial(s) && t < |Run(s, schedule).threads| && Holds(Run(s, schedule).threads[t], kind)
    ensures var now := Run(s, schedule);
            var after := Unlocked(now, t);
            && |after.threads| == |now.threads| && after.threads == now.threads[t := after.threads[t]]
            && !Holds(after.threads[t], kind) && !after.writer
            && after.readers == if kind == ReadGuard then now.readers - 1 else 0
  {
    var now := Run(s, schedule);
    RunKeepsInv(s, schedule);
    HoldersCount(now.threads, t, t, kind);
    hide Run, Holders;
    match now.threads[t].pc {
      case Acquired =>
      case Between =>
      case _ =>
    }
  }
}
