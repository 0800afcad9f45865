/** A call that meets no other: the steps of module SetValueProtocol then do what the sequential methods
    of module NotificationChain do. */
module SetValueAlone {
  import opened Wrappers
  import opened ConfigVars
  import opened SetValueProtocol
  import Sequential = NotificationChain

  /** What all the passes so far have told the listeners. */
  function AllCalls<T>(passes: seq<Pass<T>>): seq<Call<T>> {
    if passes == [] then [] else AllCalls(passes[..|passes| - 1]) + Last(passes).calls
  }

  /** The variable, without threads and locks. */
  function Variable<T>(s: State<T>): Sequential.World<T> {
    Sequential.World(VarState(s.val, s.callbacks, AllCalls(s.passes)), s.lastId)
  }

  /** No thread but `t`, which runs no call, could be in the way. */
  ghost predicate Undisturbed<T>(s: State<T>, t: nat) {
    t < |s.threads| && s.threads[t] == Idle && CanWrite(s) && Ascending(s.callbacks)
  }

  /** All that is left of the call is its effect on the variable. */
  ghost predicate Effect<T>(s: State<T>, after: State<T>, op: Sequential.Op<T>) {
    && after.threads == s.threads && after.writer == s.writer && after.readers == s.readers
    && Variable(after) == Sequential.Step(Variable(s), op)
  }

  lemma AllCallsSnoc<T>(passes: seq<Pass<T>>, p: Pass<T>)
    ensures AllCalls(passes + [p]) == AllCalls(passes) + p.calls
  {
    assert (passes + [p])[..|passes|] == passes;
  }

  lemma BackToIdle<T>(s: State<T>, t: nat, pc: Pc<T>)
    requires t < |s.threads| && s.threads[t] == Idle
    ensures Put(Put(s, t, pc), t, Idle) == s
  {
    assert s.threads[t := pc][t := Idle] == s.threads;
  }

  lemma {:induction false} SetEffect<T>(s: State<T>, v: T, start: (Callbacks, T))
    requires v != s.val
    ensures var p := Pass(s.callbacks, s.val, v, Notify(s.callbacks, s.val, v));
            Effect(s, s.(val := v, start := start, passes := s.passes + [p]), Sequential.SetOp(v))
  {
    hide Notify;
    AllCallsSnoc(s.passes, Pass(s.callbacks, s.val, v, Notify(s.callbacks, s.val, v)));
  }

  lemma NoEffect<T>(s: State<T>)
    ensures Effect(s, s, Sequential.SetOp(s.val))
  {
  }

  /** `setValue`. */
  lemma {:induction false} SetAlone<T(!new)>(s: State<T>, t: nat, v: T) returns (schedule: seq<(nat, Act<T>)>)
    requires Undisturbed(s, t)
    ensures Effect(s, Run(s, schedule), Sequential.SetOp(v))
  {
    hide Run, Do, SetBy, Ascending, Notify, Effect;
    RunNothing(s);
    schedule := [];
    if v == s.val {
      NoEffect(s);
    } else {
      NobodySets<T>({t});
      Compare(s, schedule, {t}, t, v);
      schedule := schedule + [(t, StartSet(v))];
      schedule := Announce(s, schedule, {t}, t, v);
      schedule := Publish(s, schedule, {t}, t, v);
      PutTwice(s, t, Compared(v), Notified(v));
      BackToIdle(s, t, Notified(v));
      SetEffect(s, v, (s.callbacks, s.val));
    }
  }

  lemma NobodySets<T(!new)>(setters: set<nat>)
    ensures SetBy<T>(setters, [])
  {
  }

  /** `addListener`. */
  lemma {:induction false} AddAlone<T>(s: State<T>, t: nat, cb: Callback)
    requires Undisturbed(s, t)
    ensures Effect(s, Do(Do(Do(s, t, StartAdd(cb)), t, Update), t, UnlockWrite), Sequential.AddOp(cb))
  {
    var id := (s.lastId + 1) % ID_LIMIT;
    var s1 := Do(s, t, StartAdd(cb));
    assert s1.threads == s.threads[t := Adding(cb)] && s1.writer == Some(t);
    var s2 := Do(s1, t, Update);
    assert s2.threads == s.threads[t := Leaving] && s2.callbacks == Insert(s.callbacks, id, cb) && s2.lastId == id;
    hide Insert, Ascending;
    assert Do(s2, t, UnlockWrite).threads == s.threads;
  }

  /** `delListener`. */
  lemma {:induction false} DelAlone<T>(s: State<T>, t: nat, id: nat)
    requires Undisturbed(s, t)
    ensures Effect(s, Do(Do(Do(s, t, StartDel(id)), t, Update), t, UnlockWrite), Sequential.DelOp(id))
  {
    var s1 := Do(s, t, StartDel(id));
    assert s1.threads == s.threads[t := Deleting(id)] && s1.writer == Some(t);
    var s2 := Do(s1, t, Update);
    assert s2.threads == s.threads[t := Leaving] && s2.callbacks == Erase(s.callbacks, id);
    hide Erase, Ascending;
    assert Do(s2, t, UnlockWrite).threads == s.threads;
  }

  /** `clearListener`. */
  lemma {:induction false} ClearAlone<T>(s: State<T>, t: nat)
    requires Undisturbed(s, t)
    ensures Effect(s, Do(Do(Do(s, t, StartClear), t, Update), t, UnlockWrite), Sequential.ClearOp)
  {
    var s1 := Do(s, t, StartClear);
    assert s1.threads == s.threads[t := Clearing] && s1.writer == Some(t);
    var s2 := Do(s1, t, Update);
    assert s2.threads == s.threads[t := Leaving] && s2.callbacks == [];
    assert Do(s2, t, UnlockWrite).threads == s.threads;
  }

  /** `getValue` copies the value of that moment and leaves no trace, beside any number of other readers. */
  lemma {:induction false} GetAlone<T>(s: State<T>, t: nat)
    requires t < |s.threads| && s.threads[t] == Idle && s.writer.None? && t !in s.readers
    ensures var copied := Do(Do(s, t, StartGet), t, Copy);
            copied.threads[t] == Read(s.val) && Do(copied, t, UnlockRead) == s
  {
    var s1 := Do(s, t, StartGet);
    assert s1 == Put(s, t, Reading).(readers := s.readers + {t});
    var s2 := Do(s1, t, Copy);
    PutTwice(s, t, Reading, Read(s.val));
    BackToIdle(s, t, Read(s.val));
    assert s.readers + {t} - {t} == s.readers;
  }

  /** So does `getListener`, which finds the callback registered under the id if there is one. */
  lemma {:induction false} FindAlone<T>(s: State<T>, t: nat, id: nat)
    requires t < |s.threads| && s.threads[t] == Idle && s.writer.None? && t !in s.readers && Ascending(s.callbacks)
    ensures var found := Do(Do(s, t, StartFind(id)), t, Copy);
            && found.threads[t].Found? && Do(found, t, UnlockRead) == s
            && forall cb :: found.threads[t].found == Some(cb) <==> (id, cb) in s.callbacks
  {
    CallbackIs(s.callbacks, id);
    hide CallbackOf, Ascending;
    var s1 := Do(s, t, StartFind(id));
    assert s1 == Put(s, t, Finding(id)).(readers := s.readers + {t});
    var s2 := Do(s1, t, Copy);
    PutTwice(s, t, Finding(id), Found(CallbackOf(s.callbacks, id)));
    BackToIdle(s, t, Found(CallbackOf(s.callbacks, id)));
    assert s.readers + {t} - {t} == s.readers;
  }

  lemma {:induction false} CallbackIs(cs: Callbacks, id: nat)
    requires Ascending(cs)
    ensures forall cb :: CallbackOf(cs, id) == Some(cb) <==> (id, cb) in cs
  {
    if cs != [] {
      assert cs == [cs[0]] + cs[1..];
      CallbackIs(cs[1..], id);
      assert forall cb :: (id, cb) in cs[1..] ==> cs[0].0 < id;
    }
  }
}
