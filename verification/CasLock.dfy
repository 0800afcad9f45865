/** Scoped guards over a lock that has one holder, as interleaved steps of any number of threads. `flag`
    is the atomic flag of `CASLock`; a spin that fails leaves everything as it is, so the steps are also
    those of a pthread `Mutex`, whose lock call by specification returns only once the mutex was free.
    Each step is atomic and sequentially consistent; a schedule says which thread tries which step next. */
module CasLock {
  import opened Wrappers

  /** Where a thread stands in its guard's code. */
  datatype Pc =
    | NoGuard              // the guard does not exist
    | Acquiring            // spinning on test_and_set
    | Acquired             // test_and_set has returned false, m_locked is not yet set
    | Between              // the guard exists, no call is running
    | Counting(tmp: nat)   // inside ++count, with the value loaded
    | Unlocking            // has found m_locked true, the flag is not yet cleared
    | Cleared              // the flag is cleared, m_locked is still true

  /** `locked` is the guard's `m_locked`, which its constructor does not initialise. `dying` says that
      the running unlock is the destructor's. `done` counts the increments of the thread. */
  datatype Local = Local(pc: Pc, locked: bool, dying: bool, done: nat)

  datatype State = State(flag: bool, count: nat, threads: seq<Local>)

  datatype Act =
    | Construct(garbage: bool)
    | TestAndSet
    | SetLocked
    | CallLock
    | CallUnlock
    | Destroy
    | ClearFlag
    | ResetLocked
    | LoadCount
    | StoreCount

  function Put(s: State, t: nat, l: Local): State
    requires t < |s.threads|
  {
    s.(threads := s.threads[t := l])
  }

  /** One step of thread `t`; a step that is not the thread's next one leaves the state as it is. */
  function Do(s: State, t: nat, a: Act): State {
    if t >= |s.threads| then s else
    var l := s.threads[t];
    match (l.pc, a)
    case (NoGuard, Construct(garbage)) => Put(s, t, l.(pc := Acquiring, locked := garbage, dying := false))
    case (Acquiring, TestAndSet) => if s.flag then s else Put(s, t, l.(pc := Acquired)).(flag := true)
    case (Acquired, SetLocked) => Put(s, t, l.(pc := Between, locked := true))
    case (Between, CallLock) => if l.locked then s else Put(s, t, l.(pc := Acquiring))
    case (Between, CallUnlock) => if l.locked then Put(s, t, l.(pc := Unlocking)) else s
    case (Between, Destroy) => Put(s, t, if l.locked then l.(pc := Unlocking, dying := true) else l.(pc := NoGuard))
    case (Unlocking, ClearFlag) => Put(s, t, l.(pc := Cleared)).(flag := false)
    case (Cleared, ResetLocked) => Put(s, t, l.(pc := if l.dying then NoGuard else Between, locked := false))
    case (Between, LoadCount) => if l.locked then Put(s, t, l.(pc := Counting(s.count))) else s
    case (Counting(tmp), StoreCount) => Put(s, t, l.(pc := Between, done := l.done + 1)).(count := tmp + 1)
    case _ => s
  }

  function Run(s: State, schedule: seq<(nat, Act)>): State {
    if schedule == [] then s
    else Do(Run(s, schedule[..|schedule| - 1]), Last(schedule).0, Last(schedule).1)
  }

  /** No guard exists, the flag is clear, nothing has been counted. */
  predicate Initial(s: State) {
    !s.flag && s.count == 0 && forall t | 0 <= t < |s.threads| :: s.threads[t].pc == NoGuard && s.threads[t].done == 0
  }

  /** From the successful test-and-set to the clear. */
  predicate Owns(l: Local) {
    match l.pc
    case Acquired => true
    case Between => l.locked
    case Counting(_) => true
    case Unlocking => true
    case _ => false
  }

  function TotalDone(threads: seq<Local>): nat {
    if threads == [] then 0 else TotalDone(threads[..|threads| - 1]) + Last(threads).done
  }

  ghost predicate Inv(s: State) {
    && (s.flag <==> exists t | 0 <= t < |s.threads| :: Owns(s.threads[t]))
    && (forall t, u | 0 <= t < u < |s.threads| :: !(Owns(s.threads[t]) && Owns(s.threads[u])))
    && (forall t | 0 <= t < |s.threads| :: LocalInv(s.threads[t], s.count))
    && s.count == TotalDone(s.threads)
  }

  lemma {:induction false} TotalAfter(threads: seq<Local>, t: nat, l: Local)
    requires t < |threads|
    ensures TotalDone(threads[t := l]) == TotalDone(threads) - threads[t].done + l.done
  {
    var n := |threads| - 1;
    if t < n {
      TotalAfter(threads[..n], t, l);
      assert threads[t := l][..n] == threads[..n][t := l];
    } else {
      assert threads[t := l][..n] == threads[..n];
    }
  }

  /** What the rest of a thread's code relies on. */
  predicate LocalInv(l: Local, count: nat) {
    && (l.pc.Counting? ==> l.pc.tmp == count)
    && (l.pc.Counting? || l.pc.Unlocking? || l.pc.Cleared? ==> l.locked)
  }

  /** A step of `t` touches no other thread, takes the flag only when it is clear, gives it up only by
      clearing it, and changes the counter only as its owner. */
  lemma StepFacts(s: State, t: nat, a: Act)
    requires t < |s.threads| && LocalInv(s.threads[t], s.count)
    ensures var s', l := Do(s, t, a), s.threads[t];
            |s'.threads| == |s.threads| && var l' := s'.threads[t];
            && s'.threads == s.threads[t := l'] && LocalInv(l', s'.count)
            && (Owns(l') && !Owns(l) ==> !s.flag && s'.flag)
            && (Owns(l) && !Owns(l') ==> !s'.flag)
            && (Owns(l) == Owns(l') ==> s'.flag == s.flag)
            && (s'.count != s.count ==> Owns(l))
            && s'.count - s.count == l'.done - l.done
  {
  }

  lemma {:induction false} StepKeepsInv(s: State, t: nat, a: Act)
    requires Inv(s)
    ensures Inv(Do(s, t, a))
  {
    if t < |s.threads| {
      assert LocalInv(s.threads[t], s.count);
      StepFacts(s, t, a);
      var s' := Do(s, t, a);
      TotalAfter(s.threads, t, s'.threads[t]);
      hide Do, TotalDone, LocalInv, Owns;
      if Owns(s'.threads[t]) || !s'.flag {
      } else {
        var u :| 0 <= u < |s.threads| && Owns(s.threads[u]);
        assert s'.threads[u] == s.threads[u];
      }
    } else {
      hide TotalDone;
    }
  }

  lemma {:induction false} TotalAtStart(threads: seq<Local>)
    requires forall t | 0 <= t < |threads| :: threads[t].done == 0
    ensures TotalDone(threads) == 0
  {
    if threads != [] {
      TotalAtStart(threads[..|threads| - 1]);
    }
  }

  lemma {:induction false} RunKeepsInv(s: State, schedule: seq<(nat, Act)>)
    requires Initial(s)
    ensures Inv(Run(s, schedule))
  {
    if schedule == [] {
      TotalAtStart(s.threads);
    } else {
      RunKeepsInv(s, schedule[..|schedule| - 1]);
      StepKeepsInv(Run(s, schedule[..|schedule| - 1]), Last(schedule).0, Last(schedule).1);
    }
  }

  /** In every interleaving: at most one owner, the flag is set exactly while there is one, and the
      counter is the total number of increments done. */
  lemma {:induction false} MutualExclusion(s: State, schedule: seq<(nat, Act)>, t: nat, u: nat)
    requires Initial(s)
    ensures var after := Run(s, schedule);
            && (t < |after.threads| && u < |after.threads| && Owns(after.threads[t]) && Owns(after.threads[u])
                ==> t == u)
            && (after.flag <==> exists w | 0 <= w < |after.threads| :: Owns(after.threads[w]))
            && after.count == TotalDone(after.threads)
  {
    hide Run, Do;
    RunKeepsInv(s, schedule);
  }

  function Sum(quota: seq<nat>): nat {
    if quota == [] then 0 else Sum(quota[..|quota| - 1]) + Last(quota)
  }

  lemma {:induction false} TotalIsSum(threads: seq<Local>, quota: seq<nat>)
    requires |threads| == |quota| && forall t | 0 <= t < |threads| :: threads[t].done == quota[t]
    ensures TotalDone(threads) == Sum(quota)
  {
    if threads != [] {
      TotalIsSum(threads[..|threads| - 1], quota[..|quota| - 1]);
    }
  }

  /** When every thread has done its increments and destroyed its guard, the counter is their sum and
      the lock is free. */
  lemma {:induction false} CounterEndsAtSum(s: State, schedule: seq<(nat, Act)>, quota: seq<nat>)
    requires Initial(s) && var after := Run(s, schedule);
             |after.threads| == |quota|
             && forall t | 0 <= t < |quota| :: after.threads[t].done == quota[t] && after.threads[t].pc == NoGuard
    ensures Run(s, schedule).count == Sum(quota) && !Run(s, schedule).flag
  {
    RunKeepsInv(s, schedule);
    TotalIsSum(Run(s, schedule).threads, quota);
  }

  /** In every interleaving, `m_locked` of a guard that is not acquiring the lock says that its thread owns
      it, except exactly between clearing the flag and resetting `m_locked`. */
  lemma {:induction false} LockedIsOwnership(s: State, schedule: seq<(nat, Act)>, t: nat)
    requires Initial(s) && t < |Run(s, schedule).threads|
    ensures var l := Run(s, schedule).threads[t];
            !l.pc.NoGuard? && !l.pc.Acquiring? ==>
              (Owns(l) ==> l.locked || l.pc.Acquired?) && (l.locked && !Owns(l) <==> l.pc.Cleared?)
  {
    RunKeepsInv(s, schedule);
    hide Run, Do, TotalDone;
    assert LocalInv(Run(s, schedule).threads[t], Run(s, schedule).count);
  }

  /** That moment matters: after thread 0 has cleared the flag and before it resets its
      `m_locked`, thread 1 can own the lock while both guards say they are locked. */
  lemma {:induction false} BothGuardsSayLocked(s: State)
    requires Initial(s) && |s.threads| == 2
    ensures var s1 := Do(Do(Do(s, 0, Construct(false)), 0, TestAndSet), 0, SetLocked);
            var s2 := Do(Do(s1, 0, CallUnlock), 0, ClearFlag);
            var s3 := Do(Do(Do(s2, 1, Construct(false)), 1, TestAndSet), 1, SetLocked);
            && s3.threads[0].locked && s3.threads[1].locked
            && !Owns(s3.threads[0]) && Owns(s3.threads[1])
  {
    var s1 := Do(Do(Do(s, 0, Construct(false)), 0, TestAndSet), 0, SetLocked);
    assert s1.flag && s1.threads[0].pc == Between && s1.threads[0].locked && s1.threads[1] == s.threads[1];
    var s2 := Do(Do(s1, 0, CallUnlock), 0, ClearFlag);
    assert !s2.flag && s2.threads[0].pc == Cleared && s2.threads[0].locked && s2.threads[1] == s.threads[1];
  }

  // ---------- guards do get the lock, count, and give it up ----------

  /** Steps of one thread, with none of the others in between. */
  function Alone(s: State, t: nat, acts: seq<Act>): State
    decreases |acts|
  {
    if acts == [] then s else Alone(Do(s, t, acts[0]), t, acts[1..])
  }

  /** The loop body, `n` times. */
  function CountBy(s: State, t: nat, n: nat): State {
    if n == 0 then s else Do(Do(CountBy(s, t, n - 1), t, LoadCount), t, StoreCount)
  }

  lemma {:induction false} CountByAdds(s: State, t: nat, n: nat)
    requires t < |s.threads| && s.threads[t].pc.Between? && s.threads[t].locked
    ensures CountBy(s, t, n) == Put(s, t, s.threads[t].(done := s.threads[t].done + n)).(count := s.count + n)
  {
    var l := s.threads[t];
    if n == 0 {
      assert s.threads[t := l] == s.threads;
    } else {
      CountByAdds(s, t, n - 1);
      var before := CountBy(s, t, n - 1);
      var loaded := Do(before, t, LoadCount);
      assert loaded.threads == s.threads[t := l.(pc := Counting(before.count), done := l.done + n - 1)];
      assert Do(loaded, t, StoreCount).threads == s.threads[t := l.(done := l.done + n)];
    }
  }

  lemma {:induction false} MakeGuard(s: State, t: nat, garbage: bool)
    requires t < |s.threads| && s.threads[t].pc.NoGuard? && !s.flag
    ensures Do(Do(Do(s, t, Construct(garbage)), t, TestAndSet), t, SetLocked)
            == Put(s, t, s.threads[t].(pc := Between, locked := true, dying := false)).(flag := true)
  {
    var l := s.threads[t].(pc := Acquiring, locked := garbage, dying := false);
    var s1 := Do(s, t, Construct(garbage));
    assert s1 == Put(s, t, l);
    var s2 := Do(s1, t, TestAndSet);
    assert s2 == Put(s, t, l.(pc := Acquired)).(flag := true);
    assert Do(s2, t, SetLocked).threads == s.threads[t := l.(pc := Between, locked := true)];
  }

  lemma {:induction false} DestroyGuard(s: State, t: nat)
    requires t < |s.threads| && s.threads[t].pc.Between? && s.threads[t].locked
    ensures Do(Do(Do(s, t, Destroy), t, ClearFlag), t, ResetLocked)
            == Put(s, t, s.threads[t].(pc := NoGuard, locked := false, dying := true)).(flag := false)
  {
    var l := s.threads[t].(dying := true);
    var s1 := Do(s, t, Destroy);
    assert s1 == Put(s, t, l.(pc := Unlocking));
    var s2 := Do(s1, t, ClearFlag);
    assert s2 == Put(s, t, l.(pc := Cleared)).(flag := false);
    assert Do(s2, t, ResetLocked).threads == s.threads[t := l.(pc := NoGuard, locked := false)];
  }

  /** A guard made while the flag is clear gets it, whatever `m_locked` was before; `n` increments count up
      by `n`; and its destruction gives the flag back. */
  lemma {:induction false} GuardLife(s: State, t: nat, garbage: bool, n: nat)
    requires t < |s.threads| && s.threads[t].pc.NoGuard? && !s.flag
    ensures var made := Do(Do(Do(s, t, Construct(garbage)), t, TestAndSet), t, SetLocked);
            var gone := Do(Do(Do(CountBy(made, t, n), t, Destroy), t, ClearFlag), t, ResetLocked);
            var l := s.threads[t].(pc := NoGuard, locked := false, dying := true, done := s.threads[t].done + n);
            && made.flag && made.threads == s.threads[t := made.threads[t]] && Owns(made.threads[t])
            && gone == Put(s, t, l).(count := s.count + n)
  {
    hide Do, CountBy;
    MakeGuard(s, t, garbage);
    var made := Do(Do(Do(s, t, Construct(garbage)), t, TestAndSet), t, SetLocked);
    CountByAdds(made, t, n);
    DestroyGuard(CountBy(made, t, n), t);
  }

  /** The guard's own `unlock` gives the flag back, and its `lock` takes it again. */
  lemma {:induction false} UnlockAndLock(s: State, t: nat)
    requires t < |s.threads| && s.threads[t].pc.Between? && s.threads[t].locked && !s.threads[t].dying && s.flag
    ensures var free := Do(Do(Do(s, t, CallUnlock), t, ClearFlag), t, ResetLocked);
            && free == Put(s, t, s.threads[t].(locked := false)).(flag := false)
            && Do(Do(Do(free, t, CallLock), t, TestAndSet), t, SetLocked) == s
  {
    var l := s.threads[t].(locked := false);
    var free := Do(Do(Do(s, t, CallUnlock), t, ClearFlag), t, ResetLocked);
    assert free.threads == s.threads[t := l];
    var back := Do(Do(Do(free, t, CallLock), t, TestAndSet), t, SetLocked);
    assert back.threads == s.threads;
  }

  /** Calls that are not needed do nothing: `lock` of a locked guard, `unlock` of an unlocked one, and a
      test-and-set while the flag is set; an unlocked guard is destroyed without touching the flag. */
  lemma {:induction false} IdleCalls(s: State, t: nat)
    requires t < |s.threads|
    ensures s.threads[t].pc.Between? && s.threads[t].locked ==> Do(s, t, CallLock) == s
    ensures s.threads[t].pc.Between? && !s.threads[t].locked ==>
              Do(s, t, CallUnlock) == s && Do(s, t, Destroy) == Put(s, t, s.threads[t].(pc := NoGuard))
    ensures s.threads[t].pc.Acquiring? && s.flag ==> Do(s, t, TestAndSet) == s
  {
  }

  /** What is left of an owner's code up to the clear, if it unlocks as soon as it can. */
  function WayToClear(pc: Pc): seq<Act> {
    match pc
    case Acquired => [SetLocked, CallUnlock, ClearFlag]
    case Between => [CallUnlock, ClearFlag]
    case Counting(_) => [StoreCount, CallUnlock, ClearFlag]
    case _ => [ClearFlag]
  }

  /** No deadlock: in every reachable state in which the flag is set, some thread owns it and can clear it by
      itself, in at most three steps. */
  lemma {:induction false} OwnerCanClear(s: State, schedule: seq<(nat, Act)>)
    requires Initial(s) && Run(s, schedule).flag
    ensures var now := Run(s, schedule);
            exists t :: 0 <= t < |now.threads| && Owns(now.threads[t])
                        && |WayToClear(now.threads[t].pc)| <= 3 && !Alone(now, t, WayToClear(now.threads[t].pc)).flag
  {
    var now := Run(s, schedule);
    RunKeepsInv(s, schedule);
    hide Run, TotalDone;
    var t :| 0 <= t < |now.threads| && Owns(now.threads[t]);
    assert LocalInv(now.threads[t], now.count);
    WayClears(now, t);
  }

  lemma {:induction false} WayClears(s: State, t: nat)
    requires t < |s.threads| && Owns(s.threads[t]) && LocalInv(s.threads[t], s.count)
    ensures |WayToClear(s.threads[t].pc)| <= 3 && !Alone(s, t, WayToClear(s.threads[t].pc)).flag
  {
    match s.threads[t].pc {
      case Acquired => AloneThree(s, t, SetLocked, CallUnlock, ClearFlag);
      case Between => AloneTwo(s, t, CallUnlock, ClearFlag);
      case Counting(_) => AloneThree(s, t, StoreCount, CallUnlock, ClearFlag);
      case _ => AloneOne(s, t, ClearFlag);
    }
  }

  lemma {:induction false} AloneOne(s: State, t: nat, a: Act)
    ensures Alone(s, t, [a]) == Do(s, t, a)
  {
    hide Do;
    assert [a][1..] == [];
  }

  lemma {:induction false} AloneTwo(s: State, t: nat, a: Act, b: Act)
    ensures Alone(s, t, [a, b]) == Do(Do(s, t, a), t, b)
  {
    hide Do;
    assert [a, b][1..] == [b];
    AloneOne(Do(s, t, a), t, b);
  }

  lemma {:induction false} AloneThree(s: State, t: nat, a: Act, b: Act, c: Act)
    ensures Alone(s, t, [a, b, c]) == Do(Do(Do(s, t, a), t, b), t, c)
  {
    hide Do;
    assert [a, b, c][1..] == [b, c];
    AloneTwo(Do(s, t, a), t, b, c);
  }
}
