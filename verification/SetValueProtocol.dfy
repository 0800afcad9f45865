/** The methods of one variable as interleaved steps of any number of threads under its reader/writer
    lock. The lock is taken by specification: a writer excludes everyone, readers exclude writers.
    Comparing, copying and storing a value are single steps; `toString` takes the steps of `getValue`
    and converts the copy. */
module SetValueProtocol {
  import opened Wrappers
  import opened ConfigVars

  /** Where a thread stands in its call. */
  datatype Pc<T> =
    | Idle
    | Compared(v: T)                            // found the value different, without a lock
    | Notifying(v: T, called: seq<Call<T>>)   // holds the write lock, has called these listeners
    | Notified(v: T)                          // write lock released
    | Publishing(v: T)                        // holds the read lock, has not stored yet
    | Published                                 // holds the read lock, has stored
    | Reading                                   // getValue, holds the read lock
    | Read(result: T)                           // getValue, has copied the value
    | Adding(cb: Callback)                      // holds the write lock
    | Deleting(id: nat)                         // holds the write lock
    | Clearing                                  // holds the write lock
    | Finding(id: nat)                          // getListener, holds the read lock
    | Found(found: Option<Callback>)            // getListener, has looked it up
    | Leaving                                   // holds the write lock, the map is updated

  /** A notification pass that has ended. `registered` and `oldValue` are as they were when it began. */
  datatype Pass<T> = Pass(registered: Callbacks, oldValue: T, newValue: T, calls: seq<Call<T>>)

  /** `start` remembers, for the thread that holds the write lock, what it found when it got it. */
  datatype State<T> = State(
    val: T,
    callbacks: Callbacks,
    lastId: nat,
    writer: Option<nat>,
    readers: set<nat>,
    threads: seq<Pc<T>>,
    passes: seq<Pass<T>>,
    start: (Callbacks, T))

  datatype Act<T> =
    | StartSet(v: T)
    | LockWrite
    | CallNext
    | EndPass
    | LockRead
    | Store
    | UnlockRead
    | StartGet
    | Copy
    | StartAdd(cb: Callback)
    | StartDel(id: nat)
    | StartClear
    | StartFind(id: nat)
    | Update
    | UnlockWrite

  function Put<T>(s: State<T>, t: nat, pc: Pc<T>): State<T>
    requires t < |s.threads|
  {
    s.(threads := s.threads[t := pc])
  }

  predicate CanWrite<T>(s: State<T>) {
    s.writer.None? && s.readers == {}
  }

  function WriteLocked<T>(s: State<T>, t: nat, pc: Pc<T>): State<T>
    requires t < |s.threads|
  {
    if CanWrite(s) then Put(s, t, pc).(writer := Some(t), start := (s.callbacks, s.val)) else s
  }

  function ReadLocked<T>(s: State<T>, t: nat, pc: Pc<T>): State<T>
    requires t < |s.threads|
  {
    if s.writer.None? then Put(s, t, pc).(readers := s.readers + {t}) else s
  }

  /** The id of the listener called last in this pass; ids start at 0. */
  function LastCalled<T>(called: seq<Call<T>>): int {
    if called == [] then -1 else Last(called).id
  }

  /** The map iterator's next entry: the first whose id is greater than `id`. */
  function NextAfter(cs: Callbacks, id: int): Option<(nat, Callback)> {
    if cs == [] then None else if cs[0].0 > id then Some(cs[0]) else NextAfter(cs[1..], id)
  }

  function CallbackOf(cs: Callbacks, id: nat): Option<Callback> {
    if cs == [] then None else if cs[0].0 == id then Some(cs[0].1) else CallbackOf(cs[1..], id)
  }

  /** One step of thread `t`; a step that is not the thread's next one, or that has to wait for the
      lock, leaves the state as it is. */
  function Do<T(==)>(s: State<T>, t: nat, a: Act<T>): State<T> {
    if t >= |s.threads| then s else
    match (s.threads[t], a)
    case (Idle, StartSet(v)) => if v == s.val then s else Put(s, t, Compared(v))
    case (Compared(v), LockWrite) => WriteLocked(s, t, Notifying(v, []))
    case (Notifying(v, called), CallNext) =>
      (match NextAfter(s.callbacks, LastCalled(called))
       case None => s
       case Some(c) => Put(s, t, Notifying(v, called + [Call(c.0, c.1, s.val, v)])))
    case (Notifying(v, called), EndPass) =>
      if NextAfter(s.callbacks, LastCalled(called)).Some? then s
      else Put(s, t, Notified(v)).(writer := None, passes := s.passes + [Pass(s.start.0, s.start.1, v, called)])
    case (Notified(v), LockRead) => ReadLocked(s, t, Publishing(v))
    case (Publishing(v), Store) => Put(s, t, Published).(val := v)
    case (Published, UnlockRead) => Put(s, t, Idle).(readers := s.readers - {t})
    case (Idle, StartGet) => ReadLocked(s, t, Reading)
    case (Reading, Copy) => Put(s, t, Read(s.val))
    case (Read(_), UnlockRead) => Put(s, t, Idle).(readers := s.readers - {t})
    case (Idle, StartAdd(cb)) => WriteLocked(s, t, Adding(cb))
    case (Idle, StartDel(id)) => WriteLocked(s, t, Deleting(id))
    case (Idle, StartClear) => WriteLocked(s, t, Clearing)
    case (Idle, StartFind(id)) => ReadLocked(s, t, Finding(id))
    case (Finding(id), Copy) => Put(s, t, Found(CallbackOf(s.callbacks, id)))
    case (Found(_), UnlockRead) => Put(s, t, Idle).(readers := s.readers - {t})
    case (Adding(cb), Update) =>
      var id := (s.lastId + 1) % ID_LIMIT;
      Put(s, t, Leaving).(lastId := id, callbacks := Insert(s.callbacks, id, cb))
    case (Deleting(id), Update) => Put(s, t, Leaving).(callbacks := Erase(s.callbacks, id))
    case (Clearing, Update) => Put(s, t, Leaving).(callbacks := [])
    case (Leaving, UnlockWrite) => Put(s, t, Idle).(writer := None)
    case _ => s
  }

  function Run<T(==)>(s: State<T>, schedule: seq<(nat, Act<T>)>): State<T> {
    if schedule == [] then s
    else Do(Run(s, schedule[..|schedule| - 1]), Last(schedule).0, Last(schedule).1)
  }

  ghost predicate Initial<T>(s: State<T>) {
    && Ascending(s.callbacks) && s.writer.None? && s.readers == {} && s.passes == []
    && forall t | 0 <= t < |s.threads| :: s.threads[t] == Idle
  }

  // ---------- invariants ----------

  predicate HoldsWrite<T>(pc: Pc<T>) {
    pc.Notifying? || pc.Adding? || pc.Deleting? || pc.Clearing? || pc.Leaving?
  }

  predicate HoldsRead<T>(pc: Pc<T>) {
    pc.Publishing? || pc.Published? || pc.Reading? || pc.Read? || pc.Finding? || pc.Found?
  }

  /** The lock's own books: who is in which section, and that a writer is alone. */
  ghost predicate LockInv<T>(s: State<T>) {
    && (forall t | 0 <= t < |s.threads| :: HoldsWrite(s.threads[t]) <==> s.writer == Some(t))
    && (forall t | 0 <= t < |s.threads| :: HoldsRead(s.threads[t]) <==> t in s.readers)
    && (s.writer.Some? ==> s.readers == {})
  }

  /** A thread keeps its hold, takes one while holding nothing, or gives its hold up. */
  lemma {:induction false} StepLocks<T>(s: State<T>, t: nat, a: Act<T>)
    requires t < |s.threads| && (HoldsRead(s.threads[t]) <==> t in s.readers)
    requires HoldsWrite(s.threads[t]) <==> s.writer == Some(t)
    ensures var s', pc := Do(s, t, a), s.threads[t];
            |s'.threads| == |s.threads| && var pc' := s'.threads[t];
            && s'.threads == s.threads[t := pc']
            && ((s'.writer, s'.readers) == (s.writer, s.readers)
                ==> HoldsWrite(pc') == HoldsWrite(pc) && HoldsRead(pc') == HoldsRead(pc))
            && (s'.writer != s.writer ==> s'.readers == s.readers && !HoldsRead(pc) && !HoldsRead(pc'))
            && (s'.writer != s.writer && HoldsWrite(pc) ==> s'.writer.None? && !HoldsWrite(pc'))
            && (s'.writer != s.writer && !HoldsWrite(pc) ==> CanWrite(s) && s'.writer == Some(t) && HoldsWrite(pc'))
            && (s'.readers != s.readers ==> s'.writer == s.writer && !HoldsWrite(pc) && !HoldsWrite(pc'))
            && (s'.readers != s.readers && HoldsRead(pc) ==> s'.readers == s.readers - {t} && !HoldsRead(pc'))
            && (s'.readers != s.readers && !HoldsRead(pc) ==>
                  s.writer.None? && s'.readers == s.readers + {t} && HoldsRead(pc'))
  {
    hide NextAfter, Insert, Erase, LastCalled, CallbackOf;
  }

  lemma {:induction false} StepKeepsLockInv<T>(s: State<T>, t: nat, a: Act<T>)
    requires LockInv(s)
    ensures LockInv(Do(s, t, a))
  {
    hide Do, HoldsRead, HoldsWrite;
    if t < |s.threads| {
      StepLocks(s, t, a);
    } else {
      NoThread(s, t, a);
    }
  }

  /** The lock does its work: of two threads in sections, neither is a writer. */
  lemma {:induction false} SectionsExclude<T>(s: State<T>, schedule: seq<(nat, Act<T>)>, t: nat, u: nat)
    requires Initial(s) && t != u && t < |Run(s, schedule).threads| && u < |Run(s, schedule).threads|
    ensures var after := Run(s, schedule);
            HoldsWrite(after.threads[t]) ==> !HoldsWrite(after.threads[u]) && !HoldsRead(after.threads[u])
  {
    RunKeeps(s, schedule);
  }

  /** A pass under way has called the first listeners, in order, all with the same pair of values. */
  ghost predicate InPass<T>(cs: Callbacks, oldValue: T, v: T, called: seq<Call<T>>) {
    |called| <= |cs| && called == Notify(cs, oldValue, v)[..|called|]
  }

  /** While a pass runs, neither the map nor the value has changed since it began. */
  ghost predicate NotifyInv<T>(s: State<T>) {
    && Ascending(s.callbacks)
    && forall t | 0 <= t < |s.threads| && s.threads[t].Notifying? ::
         s.start == (s.callbacks, s.val) && InPass(s.callbacks, s.val, s.threads[t].v, s.threads[t].called)
  }

  /** Every registered listener was called exactly once, in id order, with one pair of values. */
  ghost predicate Complete<T>(p: Pass<T>) {
    Ascending(p.registered) && p.calls == Notify(p.registered, p.oldValue, p.newValue)
  }

  /** The initial value, or the new value of one of these passes. */
  ghost predicate Known<T>(init: T, passes: seq<Pass<T>>, v: T) {
    v == init || exists i | 0 <= i < |passes| :: passes[i].newValue == v
  }

  ghost predicate PassesInv<T>(init: T, s: State<T>) {
    forall i | 0 <= i < |s.passes| :: Complete(s.passes[i]) && Known(init, s.passes[..i], s.passes[i].oldValue)
  }

  /** Values are announced before they can be read. */
  ghost predicate ValuesInv<T>(init: T, s: State<T>) {
    && Known(init, s.passes, s.val)
    && forall t | 0 <= t < |s.threads| ::
         match s.threads[t]
         case Notified(v) => Known(init, s.passes, v)
         case Publishing(v) => Known(init, s.passes, v)
         case Read(v) => Known(init, s.passes, v)
         case _ => true
  }

  lemma {:induction false} NextAfterAt(cs: Callbacks, id: int, k: nat)
    requires k <= |cs| && (forall i | 0 <= i < k :: cs[i].0 <= id) && (k < |cs| ==> cs[k].0 > id)
    ensures NextAfter(cs, id) == if k < |cs| then Some(cs[k]) else None
  {
    if k > 0 {
      NextAfterAt(cs[1..], id, k - 1);
    }
  }

  /** The iterator meets the entries one by one. */
  lemma {:induction false} NextInPass<T>(cs: Callbacks, oldValue: T, v: T, called: seq<Call<T>>)
    requires Ascending(cs) && InPass(cs, oldValue, v, called)
    ensures var k := |called|;
            NextAfter(cs, LastCalled(called)) == if k < |cs| then Some(cs[k]) else None
    ensures |called| < |cs| ==>
              var c := cs[|called|];
              InPass(cs, oldValue, v, called + [Call(c.0, c.1, oldValue, v)])
    ensures |called| == |cs| ==> called == Notify(cs, oldValue, v)
  {
    var k := |called|;
    IdsAreUnique(cs);
    if k > 0 {
      assert called[k - 1] == Notify(cs, oldValue, v)[k - 1];
    }
    NextAfterAt(cs, LastCalled(called), k);
  }

  lemma InsertEraseOrder(cs: Callbacks, id: nat, cb: Callback)
    requires Ascending(cs)
    ensures Ascending(Insert(cs, id, cb)) && Ascending(Erase(cs, id))
  {
    InsertKeepsOrder(cs, id, cb);
    EraseKeepsOrder(cs, id);
  }

  lemma EmptyAscends()
    ensures Ascending([])
  {
  }

  /** Which steps touch what: only a writer changes the map, only a reader changes the value, and only
      taking the free lock for writing changes `start`. */
  lemma {:induction false} StepTouches<T>(s: State<T>, t: nat, a: Act<T>)
    requires t < |s.threads|
    ensures var s', pc := Do(s, t, a), s.threads[t];
            && |s'.threads| == |s.threads| && s'.threads == s.threads[t := s'.threads[t]]
            && (s'.callbacks != s.callbacks ==> pc.Adding? || pc.Deleting? || pc.Clearing?)
            && (s'.val != s.val ==> pc.Publishing?)
            && (s'.start != s.start ==> CanWrite(s))
            && (s'.passes != s.passes ==> pc.Notifying?)
  {
    hide NextAfter, Insert, Erase, LastCalled, CallbackOf;
  }

  /** Another thread's step leaves a running pass alone. */
  lemma {:induction false} OthersKeepPass<T>(s: State<T>, t: nat, a: Act<T>, u: nat)
    requires LockInv(s) && t < |s.threads| && u < |s.threads| && t != u && s.threads[u].Notifying?
    ensures var s' := Do(s, t, a);
            s'.threads[u] == s.threads[u] && s'.callbacks == s.callbacks && s'.val == s.val && s'.start == s.start
  {
    StepTouches(s, t, a);
    hide Do;
    assert HoldsWrite(s.threads[u]) && s.writer == Some(u);
    assert HoldsWrite(s.threads[t]) ==> s.writer == Some(t);
    assert HoldsRead(s.threads[t]) ==> t in s.readers;
  }

  /** The pass's own step. */
  lemma {:induction false} OwnStepKeepsPass<T>(s: State<T>, t: nat, a: Act<T>)
    requires LockInv(s) && NotifyInv(s) && t < |s.threads|
    ensures var s' := Do(s, t, a);
            && Ascending(s'.callbacks)
            && (s'.threads[t].Notifying? ==>
                  s'.start == (s'.callbacks, s'.val)
                  && InPass(s'.callbacks, s'.val, s'.threads[t].v, s'.threads[t].called))
  {
    hide NextAfter, Insert, Erase, LastCalled, Ascending, Notify;
    match s.threads[t] {
      case Notifying(v, called) =>
        NextInPass(s.callbacks, s.val, v, called);
      case Adding(cb) =>
        InsertEraseOrder(s.callbacks, (s.lastId + 1) % ID_LIMIT, cb);
      case Deleting(id) =>
        InsertEraseOrder(s.callbacks, id, 0);
      case Clearing =>
        EmptyAscends();
      case _ =>
    }
  }

  lemma {:induction false} StepKeepsNotifyInv<T>(s: State<T>, t: nat, a: Act<T>)
    requires LockInv(s) && NotifyInv(s)
    ensures NotifyInv(Do(s, t, a))
  {
    hide Do, InPass, Ascending, LockInv;
    if t < |s.threads| {
      OwnStepKeepsPass(s, t, a);
      StepTouches(s, t, a);
      var s' := Do(s, t, a);
      forall u | 0 <= u < |s'.threads| && s'.threads[u].Notifying?
        ensures s'.start == (s'.callbacks, s'.val)
        ensures InPass(s'.callbacks, s'.val, s'.threads[u].v, s'.threads[u].called)
      {
        if u != t {
          OthersKeepPass(s, t, a, u);
        }
      }
    } else {
      NoThread(s, t, a);
    }
  }

  lemma NoThread<T>(s: State<T>, t: nat, a: Act<T>)
    requires t >= |s.threads|
    ensures Do(s, t, a) == s
  {
  }

  /** A pass is recorded when it has run to its end. */
  lemma {:induction false} StepRecords<T>(s: State<T>, t: nat, a: Act<T>)
    requires NotifyInv(s) && t < |s.threads|
    ensures var s' := Do(s, t, a);
            s'.passes == s.passes ||
            (s.threads[t].Notifying? && s'.threads[t] == Notified(s.threads[t].v)
             && var p := Pass(s.callbacks, s.val, s.threads[t].v, s.threads[t].called);
                s'.passes == s.passes + [p] && Complete(p))
  {
    hide NextAfter, Insert, Erase, LastCalled, Ascending, Notify, InPass;
    if s.threads[t].Notifying? {
      NextInPass(s.callbacks, s.val, s.threads[t].v, s.threads[t].called);
      FullPass(s.callbacks, s.val, s.threads[t].v, s.threads[t].called);
    }
  }

  lemma FullPass<T>(cs: Callbacks, oldValue: T, v: T, called: seq<Call<T>>)
    requires InPass(cs, oldValue, v, called)
    ensures |called| <= |cs|
  {
  }

  lemma KnownGrows<T>(init: T, passes: seq<Pass<T>>, p: Pass<T>)
    ensures forall v :: Known(init, passes, v) ==> Known(init, passes + [p], v)
    ensures Known(init, passes + [p], p.newValue)
  {
    assert (passes + [p])[|passes|] == p;
    assert forall i | 0 <= i < |passes| :: (passes + [p])[i] == passes[i];
  }

  lemma {:induction false} StepKeepsPassesInv<T>(init: T, s: State<T>, t: nat, a: Act<T>)
    requires NotifyInv(s) && PassesInv(init, s) && ValuesInv(init, s)
    ensures PassesInv(init, Do(s, t, a))
  {
    hide Do, Complete, Known, NotifyInv;
    if t < |s.threads| {
      StepRecords(s, t, a);
      var s' := Do(s, t, a);
      if s'.passes != s.passes {
        forall i | 0 <= i < |s.passes| ensures s'.passes[..i] == s.passes[..i] {
        }
        assert s'.passes[..|s.passes|] == s.passes;
      }
    } else {
      NoThread(s, t, a);
    }
  }

  /** A thread in this place carries this value, which must have been announced. */
  function Carried<T>(pc: Pc<T>): Option<T> {
    match pc
    case Notified(v) => Some(v)
    case Publishing(v) => Some(v)
    case Read(v) => Some(v)
    case _ => None
  }

  /** A carried value comes from the same thread, from the variable, or from a pass recorded right now. */
  lemma {:induction false} StepCarries<T>(s: State<T>, t: nat, a: Act<T>)
    requires t < |s.threads|
    ensures var s' := Do(s, t, a);
            var c, c' := Carried(s.threads[t]), Carried(s'.threads[t]);
            && (c'.None? || c' == c || c' == Some(s.val)
                || (s'.threads[t].Notified? && s.threads[t].Notifying? && s'.passes != s.passes))
            && (s'.val == s.val || Some(s'.val) == c)
  {
    hide NextAfter, Insert, Erase, LastCalled, CallbackOf;
  }

  lemma {:induction false} StepKeepsValuesInv<T>(init: T, s: State<T>, t: nat, a: Act<T>)
    requires NotifyInv(s) && ValuesInv(init, s)
    ensures ValuesInv(init, Do(s, t, a))
  {
    hide Do, Known, NotifyInv, Complete;
    if t < |s.threads| {
      StepRecords(s, t, a);
      StepCarries(s, t, a);
      StepTouches(s, t, a);
      KnownGrows(init, s.passes, Pass(s.callbacks, s.val, if s.threads[t].Notifying? then s.threads[t].v else s.val,
                                      if s.threads[t].Notifying? then s.threads[t].called else []));
    } else {
      NoThread(s, t, a);
    }
  }

  lemma {:induction false} RunKeeps<T>(s: State<T>, schedule: seq<(nat, Act<T>)>)
    requires Initial(s)
    ensures var after := Run(s, schedule);
            LockInv(after) && NotifyInv(after) && PassesInv(s.val, after) && ValuesInv(s.val, after)
  {
    if schedule != [] {
      var before, t, a := Run(s, schedule[..|schedule| - 1]), Last(schedule).0, Last(schedule).1;
      RunKeeps(s, schedule[..|schedule| - 1]);
      hide *;
      StepKeepsLockInv(before, t, a);
      StepKeepsNotifyInv(before, t, a);
      StepKeepsPassesInv(s.val, before, t, a);
      StepKeepsValuesInv(s.val, before, t, a);
      RunStep(s, schedule);
    }
  }

  lemma RunStep<T>(s: State<T>, schedule: seq<(nat, Act<T>)>)
    requires schedule != []
    ensures var last := schedule[|schedule| - 1];
            Run(s, schedule) == Do(Run(s, schedule[..|schedule| - 1]), last.0, last.1)
  {
  }

  /** In every interleaving, each pass that has ended called every listener registered when it began
      exactly once, in id order, all with the one value the variable had throughout, and that value had
      itself been announced by an earlier pass, or was the first. */
  lemma {:induction false} PassesAreComplete<T>(s: State<T>, schedule: seq<(nat, Act<T>)>, i: nat)
    requires Initial(s) && i < |Run(s, schedule).passes|
    ensures var passes := Run(s, schedule).passes;
            && Complete(passes[i])
            && Known(s.val, passes[..i], passes[i].oldValue)
  {
    RunKeeps(s, schedule);
  }

  /** In every interleaving, what `getValue` returns is the initial value, or a value whose notification
      pass had already ended. */
  lemma {:induction false} ReadsAreAnnounced<T>(s: State<T>, schedule: seq<(nat, Act<T>)>, t: nat)
    requires Initial(s) && t < |s.threads| && t < |Run(s, schedule).threads| && Run(s, schedule).threads[t].Read?
    ensures Known(s.val, Run(s, schedule).passes, Run(s, schedule).threads[t].result)
  {
    RunKeeps(s, schedule);
  }

  // ---------- one thread that sets: the passes chain ----------

  /** The value last announced, or the first one. */
  function Announced<T>(init: T, passes: seq<Pass<T>>): T {
    if passes == [] then init else Last(passes).newValue
  }

  /** Each pass starts from the value announced before it, and no pass announces the value it starts from. */
  ghost predicate Chained<T>(init: T, passes: seq<Pass<T>>) {
    forall i | 0 <= i < |passes| ::
      passes[i].oldValue == Announced(init, passes[..i]) && passes[i].newValue != passes[i].oldValue
  }

  /** The thread has announced this value and not stored it yet. */
  predicate AboutToStore<T(==)>(pc: Pc<T>, v: T) {
    pc == Notified(v) || pc == Publishing(v)
  }

  /** The value announced last is in the variable, or about to be: no listener is left behind. */
  ghost predicate UpToDate<T>(init: T, s: State<T>) {
    || s.val == Announced(init, s.passes)
    || exists t | 0 <= t < |s.threads| :: AboutToStore(s.threads[t], Announced(init, s.passes))
  }

  /** The passes chain, and lead up to the value of the variable. */
  ghost predicate Current<T>(init: T, s: State<T>) {
    Chained(init, s.passes) && UpToDate(init, s)
  }

  predicate InSet<T>(pc: Pc<T>) {
    pc.Compared? || pc.Notifying? || pc.Notified? || pc.Publishing? || pc.Published?
  }

  /** What the only thread that sets relies on, at each of its places. */
  ghost predicate SetterInv<T>(announced: T, val: T, pc: Pc<T>) {
    match pc
    case Compared(v) => v != val && val == announced
    case Notifying(v, _) => v != val && val == announced
    case Notified(v) => v == announced
    case Publishing(v) => v == announced
    case _ => val == announced
  }

  ghost predicate OneSetterInv<T>(init: T, s: State<T>, t: nat) {
    && Chained(init, s.passes)
    && (forall u | 0 <= u < |s.threads| && u != t :: !InSet(s.threads[u]))
    && (if t < |s.threads| then SetterInv(Announced(init, s.passes), s.val, s.threads[t])
        else s.val == Announced(init, s.passes))
  }

  /** Every `setValue` is called by one of these threads. */
  ghost predicate SetBy<T(!new)>(setters: set<nat>, schedule: seq<(nat, Act<T>)>) {
    forall k | 0 <= k < |schedule| && schedule[k].1.StartSet? :: schedule[k].0 in setters
  }

  /** A thread that does not set never gets into `setValue`, and leaves the value and the passes alone. */
  lemma {:induction false} OtherStep<T>(s: State<T>, u: nat, a: Act<T>)
    requires u < |s.threads| && !InSet(s.threads[u]) && !a.StartSet?
    ensures var s' := Do(s, u, a);
            && s'.val == s.val && s'.passes == s.passes && |s'.threads| == |s.threads|
            && s'.threads == s.threads[u := s'.threads[u]] && !InSet(s'.threads[u])
  {
    hide NextAfter, Insert, Erase, LastCalled, CallbackOf;
  }

  /** The setter's own step; the last pass it records starts from the value it found. */
  lemma {:induction false} SetterStep<T>(init: T, s: State<T>, t: nat, a: Act<T>)
    requires t < |s.threads| && NotifyInv(s) && SetterInv(Announced(init, s.passes), s.val, s.threads[t])
    ensures var s' := Do(s, t, a);
            && |s'.threads| == |s.threads| && s'.threads == s.threads[t := s'.threads[t]]
            && SetterInv(Announced(init, s'.passes), s'.val, s'.threads[t])
            && (s'.passes == s.passes ||
                exists p :: s'.passes == s.passes + [p]
                            && p.oldValue == Announced(init, s.passes) && p.newValue != p.oldValue)
  {
    StepRecords(s, t, a);
    StepTouches(s, t, a);
    var s' := Do(s, t, a);
    hide NextAfter, Insert, Erase, LastCalled, CallbackOf, NotifyInv, Complete;
    match s.threads[t] {
      case Notifying(v, called) =>
        if s'.passes != s.passes {
          assert Last(s'.passes) == Pass(s.callbacks, s.val, v, called);
        }
      case Publishing(v) =>
      case _ =>
    }
  }

  lemma ChainedGrows<T>(init: T, passes: seq<Pass<T>>, p: Pass<T>)
    requires Chained(init, passes) && p.oldValue == Announced(init, passes) && p.newValue != p.oldValue
    ensures Chained(init, passes + [p])
  {
    assert forall i | 0 <= i <= |passes| :: (passes + [p])[..i] == passes[..i];
    assert passes[..|passes|] == passes;
  }

  lemma {:induction false} StepKeepsOneSetter<T>(init: T, s: State<T>, t: nat, u: nat, a: Act<T>)
    requires NotifyInv(s) && OneSetterInv(init, s, t) && (a.StartSet? ==> u == t)
    ensures OneSetterInv(init, Do(s, u, a), t)
  {
    hide Do, NotifyInv, Chained, SetterInv, InSet, Announced;
    if u >= |s.threads| {
      NoThread(s, u, a);
    } else if u != t {
      OtherStep(s, u, a);
    } else {
      SetterStep(init, s, t, a);
      var s' := Do(s, t, a);
      if s'.passes != s.passes {
        var p :| s'.passes == s.passes + [p] && p.oldValue == Announced(init, s.passes) && p.newValue != p.oldValue;
        ChainedGrows(init, s.passes, p);
      }
    }
  }

  lemma {:induction false} RunKeepsOneSetter<T(!new)>(s: State<T>, schedule: seq<(nat, Act<T>)>, t: nat)
    requires Initial(s) && SetBy({t}, schedule)
    ensures OneSetterInv(s.val, Run(s, schedule), t)
  {
    if schedule != [] {
      var before, u, a := schedule[..|schedule| - 1], Last(schedule).0, Last(schedule).1;
      assert forall k | 0 <= k < |before| :: before[k] == schedule[k];
      assert schedule[|schedule| - 1] == (u, a);
      RunKeepsOneSetter(s, before, t);
      RunKeeps(s, before);
      hide Do, NotifyInv, OneSetterInv, LockInv, PassesInv, ValuesInv;
      StepKeepsOneSetter(s.val, Run(s, before), t, u, a);
    }
  }

  /** With one thread that sets, and any number that do anything else, in every interleaving the passes
      chain from the first value to the variable's, up to the one value that is about to be stored. */
  lemma {:induction false} OneSetterStaysCurrent<T(!new)>(s: State<T>, schedule: seq<(nat, Act<T>)>, t: nat)
    requires Initial(s) && SetBy({t}, schedule)
    ensures Current(s.val, Run(s, schedule))
  {
    RunKeepsOneSetter(s, schedule, t);
    hide Run, Chained, Announced;
  }

  // ---------- two threads that set: they can be left behind ----------

  lemma RunNothing<T>(s: State<T>)
    ensures Run(s, []) == s
  {
  }

  lemma RunSnoc<T>(s: State<T>, schedule: seq<(nat, Act<T>)>, t: nat, a: Act<T>)
    ensures Run(s, schedule + [(t, a)]) == Do(Run(s, schedule), t, a)
  {
    assert (schedule + [(t, a)])[..|schedule|] == schedule;
  }

  lemma SetBySnoc<T(!new)>(setters: set<nat>, schedule: seq<(nat, Act<T>)>, t: nat, a: Act<T>)
    requires SetBy(setters, schedule) && (a.StartSet? ==> t in setters)
    ensures SetBy(setters, schedule + [(t, a)])
  {
  }

  /** The rest of a pass, undisturbed. */
  lemma {:induction false} CallTheRest<T(!new)>(s: State<T>, schedule: seq<(nat, Act<T>)>, setters: set<nat>,
                                                t: nat, v: T, called: seq<Call<T>>) returns (longer: seq<(nat, Act<T>)>)
    requires t < |Run(s, schedule).threads| && Run(s, schedule).threads[t] == Notifying(v, called)
    requires var now := Run(s, schedule); Ascending(now.callbacks) && InPass(now.callbacks, now.val, v, called)
    requires SetBy(setters, schedule)
    ensures var now := Run(s, schedule);
            Run(s, longer) == Put(now, t, Notifying(v, Notify(now.callbacks, now.val, v)))
    ensures SetBy(setters, longer)
    decreases |Run(s, schedule).callbacks| - |called|
  {
    var now := Run(s, schedule);
    var cs := now.callbacks;
    NextInPass(cs, now.val, v, called);
    hide NextAfter, LastCalled, Ascending, Run, SetBy;
    if |called| == |cs| {
      longer := schedule;
      assert now.threads[t := now.threads[t]] == now.threads;
    } else {
      RunSnoc(s, schedule, t, CallNext);
      SetBySnoc(setters, schedule, t, CallNext);
      var c := cs[|called|];
      var more := called + [Call(c.0, c.1, now.val, v)];
      var next := Run(s, schedule + [(t, CallNext)]);
      assert next == Put(now, t, Notifying(v, more));
      longer := CallTheRest(s, schedule + [(t, CallNext)], setters, t, v, more);
      PutTwice(now, t, Notifying(v, more), Notifying(v, Notify(cs, now.val, v)));
    }
  }

  lemma {:induction false} PassBegins<T>(s: State<T>, t: nat, v: T)
    requires t < |s.threads| && s.threads[t] == Compared(v) && CanWrite(s)
    ensures Do(s, t, LockWrite) == Put(s, t, Notifying(v, [])).(writer := Some(t), start := (s.callbacks, s.val))
  {
  }

  lemma {:induction false} PassEnds<T>(s: State<T>, t: nat, v: T)
    requires t < |s.threads| && Ascending(s.callbacks) && s.start == (s.callbacks, s.val)
    requires s.threads[t] == Notifying(v, Notify(s.callbacks, s.val, v))
    ensures var p := Pass(s.callbacks, s.val, v, Notify(s.callbacks, s.val, v));
            Do(s, t, EndPass) == Put(s, t, Notified(v)).(writer := None, passes := s.passes + [p])
  {
    NextInPass(s.callbacks, s.val, v, Notify(s.callbacks, s.val, v));
    hide Ascending, NextAfter, LastCalled;
  }

  lemma PutTwice<T>(s: State<T>, t: nat, a: Pc<T>, b: Pc<T>)
    requires t < |s.threads|
    ensures Put(Put(s, t, a), t, b) == Put(s, t, b)
  {
  }

  /** A whole pass, undisturbed. */
  lemma {:induction false} Announce<T(!new)>(s: State<T>, schedule: seq<(nat, Act<T>)>, setters: set<nat>, t: nat, v: T)
    returns (longer: seq<(nat, Act<T>)>)
    requires t < |Run(s, schedule).threads| && Run(s, schedule).threads[t] == Compared(v)
    requires CanWrite(Run(s, schedule)) && Ascending(Run(s, schedule).callbacks) && SetBy(setters, schedule)
    ensures var now := Run(s, schedule);
            var p := Pass(now.callbacks, now.val, v, Notify(now.callbacks, now.val, v));
            Run(s, longer) == Put(now, t, Notified(v)).(start := (now.callbacks, now.val), passes := now.passes + [p])
    ensures SetBy(setters, longer)
  {
    hide Run, Do, SetBy, Ascending, Notify;
    var now := Run(s, schedule);
    RunSnoc(s, schedule, t, LockWrite);
    PassBegins(now, t, v);
    SetBySnoc(setters, schedule, t, LockWrite);
    NothingCalled(now.callbacks, now.val, v);
    longer := CallTheRest(s, schedule + [(t, LockWrite)], setters, t, v, []);
    PassEnds(Run(s, longer), t, v);
    RunSnoc(s, longer, t, EndPass);
    SetBySnoc(setters, longer, t, EndPass);
    longer := longer + [(t, EndPass)];
    PutTwice(now, t, Notifying(v, []), Notifying(v, Notify(now.callbacks, now.val, v)));
    PutTwice(now, t, Notifying(v, Notify(now.callbacks, now.val, v)), Notified(v));
  }

  lemma NothingCalled<T>(cs: Callbacks, oldValue: T, v: T)
    ensures InPass(cs, oldValue, v, [])
  {
  }

  lemma {:induction false} StoreSteps<T>(s: State<T>, t: nat, v: T)
    requires t < |s.threads| && s.threads[t] == Notified(v) && CanWrite(s)
    ensures Do(Do(Do(s, t, LockRead), t, Store), t, UnlockRead) == Put(s, t, Idle).(val := v)
  {
    var s1 := Do(s, t, LockRead);
    assert s1 == Put(s, t, Publishing(v)).(readers := {t});
    var s2 := Do(s1, t, Store);
    assert s2 == Put(s1, t, Published).(val := v);
    PutTwice(s, t, Publishing(v), Published);
    PutTwice(s, t, Published, Idle);
  }

  /** Storing, undisturbed. */
  lemma {:induction false} Publish<T(!new)>(s: State<T>, schedule: seq<(nat, Act<T>)>, setters: set<nat>, t: nat, v: T)
    returns (longer: seq<(nat, Act<T>)>)
    requires t < |Run(s, schedule).threads| && Run(s, schedule).threads[t] == Notified(v)
    requires CanWrite(Run(s, schedule)) && SetBy(setters, schedule)
    ensures Run(s, longer) == Put(Run(s, schedule), t, Idle).(val := v)
    ensures SetBy(setters, longer)
  {
    hide Run, Do, SetBy;
    StoreSteps(Run(s, schedule), t, v);
    RunThree(s, schedule, t, LockRead, Store, UnlockRead);
    SetBySnoc(setters, schedule, t, LockRead);
    SetBySnoc(setters, schedule + [(t, LockRead)], t, Store);
    longer := schedule + [(t, LockRead)] + [(t, Store)];
    SetBySnoc(setters, longer, t, UnlockRead);
    longer := longer + [(t, UnlockRead)];
  }

  lemma {:induction false} RunThree<T>(s: State<T>, schedule: seq<(nat, Act<T>)>, t: nat,
                                       a: Act<T>, b: Act<T>, c: Act<T>)
    ensures Run(s, schedule + [(t, a)] + [(t, b)] + [(t, c)]) == Do(Do(Do(Run(s, schedule), t, a), t, b), t, c)
  {
    hide Run, Do;
    RunSnoc(s, schedule, t, a);
    RunSnoc(s, schedule + [(t, a)], t, b);
    RunSnoc(s, schedule + [(t, a)] + [(t, b)], t, c);
  }

  /** Both threads find the value different before either of them takes the lock. */
  lemma {:induction false} BothCompare<T(!new)>(s: State<T>, t: nat, u: nat, v: T, w: T)
    returns (schedule: seq<(nat, Act<T>)>)
    requires Initial(s) && t < |s.threads| && u < |s.threads| && t != u && v != s.val && w != s.val
    ensures SetBy({t, u}, schedule)
    ensures Run(s, schedule) == s.(threads := s.threads[t := Compared(v)][u := Compared(w)])
  {
    RunNothing(s);
    RunSnoc(s, [], t, StartSet(v));
    RunSnoc(s, [(t, StartSet(v))], u, StartSet(w));
    schedule := [(t, StartSet(v))] + [(u, StartSet(w))];
    assert [] + [(t, StartSet(v))] == [(t, StartSet(v))];
  }

  /** Two threads that set at the same time can both announce a change from the first value, and store in
      the other order, so that the variable ends with the value announced first. */
  lemma {:induction false} StoresCanCross<T(!new)>(s: State<T>, t: nat, u: nat, v: T, w: T)
    returns (schedule: seq<(nat, Act<T>)>)
    requires Initial(s) && t < |s.threads| && u < |s.threads| && t != u && v != s.val && w != s.val
    ensures SetBy({t, u}, schedule)
    ensures var after := Run(s, schedule);
            && after.threads == s.threads && |after.passes| == 2 && after.val == v
            && (after.passes[0].oldValue, after.passes[0].newValue) == (s.val, v)
            && (after.passes[1].oldValue, after.passes[1].newValue) == (s.val, w)
  {
    hide Run, Do, Ascending, Notify, SetBy;
    schedule := BothCompare(s, t, u, v, w);
    schedule := Announce(s, schedule, {t, u}, t, v);
    schedule := Announce(s, schedule, {t, u}, u, w);
    schedule := Publish(s, schedule, {t, u}, u, w);
    schedule := Publish(s, schedule, {t, u}, t, v);
    assert Run(s, schedule).threads == s.threads;
  }

  lemma {:induction false} Compare<T(!new)>(s: State<T>, schedule: seq<(nat, Act<T>)>, setters: set<nat>, t: nat, v: T)
    requires t < |Run(s, schedule).threads| && Run(s, schedule).threads[t] == Idle && Run(s, schedule).val != v
    requires SetBy(setters, schedule) && t in setters
    ensures Run(s, schedule + [(t, StartSet(v))]) == Put(Run(s, schedule), t, Compared(v))
    ensures SetBy(setters, schedule + [(t, StartSet(v))])
  {
    RunSnoc(s, schedule, t, StartSet(v));
    SetBySnoc(setters, schedule, t, StartSet(v));
  }

  /** Three calls by two threads leave the variable behind for good, with as few as two values: `u` has
      compared while the first value was there, `t` sets `v` and then announces the first value again, `u`
      announces and stores `v`, and `t` stores the first value last. */
  lemma {:induction false} ListenersCanBeLeftStale<T(!new)>(s: State<T>, t: nat, u: nat, v: T)
    returns (schedule: seq<(nat, Act<T>)>)
    requires Initial(s) && t < |s.threads| && u < |s.threads| && t != u && v != s.val
    ensures SetBy({t, u}, schedule)
    ensures var after := Run(s, schedule);
            after.threads == s.threads && after.val == s.val && Announced(s.val, after.passes) == v
  {
    hide Run, Do, Ascending, Notify, SetBy;
    schedule := BothCompare(s, t, u, v, v);
    schedule := Announce(s, schedule, {t, u}, t, v);
    schedule := Publish(s, schedule, {t, u}, t, v);
    Compare(s, schedule, {t, u}, t, s.val);
    schedule := schedule + [(t, StartSet(s.val))];
    schedule := Announce(s, schedule, {t, u}, t, s.val);
    schedule := Announce(s, schedule, {t, u}, u, v);
    schedule := Publish(s, schedule, {t, u}, u, v);
    schedule := Publish(s, schedule, {t, u}, t, s.val);
    assert Run(s, schedule).threads == s.threads;
  }

  ghost predicate AlwaysUpToDate<T(!new)>(s: State<T>, setters: set<nat>) {
    forall schedule: seq<(nat, Act<T>)> | SetBy(setters, schedule) :: UpToDate(s.val, Run(s, schedule))
  }

  ghost predicate AlwaysCurrent<T(!new)>(s: State<T>, setters: set<nat>) {
    forall schedule: seq<(nat, Act<T>)> | SetBy(setters, schedule) :: Current(s.val, Run(s, schedule))
  }

  /** Whether listeners can be left behind depends only on how many threads set the variable: it is up to
      date with its announcements in every interleaving exactly when there are not two, and then the passes
      chain as well. */
  lemma {:induction false} CurrentIffOneSetter<T(!new)>(s: State<T>, setters: set<nat>, v: T)
    requires Initial(s) && v != s.val && forall t | t in setters :: t < |s.threads|
    ensures AlwaysUpToDate(s, setters) <==> forall t, u | t in setters && u in setters :: t == u
    ensures AlwaysCurrent(s, setters) <==> AlwaysUpToDate(s, setters)
  {
    hide Run, Initial, Chained, Announced;
    if t, u :| t in setters && u in setters && t != u {
      var schedule := ListenersCanBeLeftStale(s, t, u, v);
      SetByMore({t, u}, setters, schedule);
      NobodyAboutToStore(s, Run(s, schedule));
      assert !UpToDate(s.val, Run(s, schedule));
      assert !Current(s.val, Run(s, schedule));
    } else {
      var t: nat := if setters == {} then 0 else var w :| w in setters; w;
      forall schedule: seq<(nat, Act<T>)> | SetBy(setters, schedule) ensures Current(s.val, Run(s, schedule)) {
        SetByMore(setters, {t}, schedule);
        OneSetterStaysCurrent(s, schedule, t);
      }
    }
  }

  lemma NobodyAboutToStore<T(!new)>(s: State<T>, after: State<T>)
    requires Initial(s) && after.threads == s.threads
    ensures forall t, v: T | 0 <= t < |after.threads| :: !AboutToStore(after.threads[t], v)
  {
  }

  lemma SetByMore<T(!new)>(some: set<nat>, more: set<nat>, schedule: seq<(nat, Act<T>)>)
    requires SetBy(some, schedule) && some <= more
    ensures SetBy(more, schedule)
  {
  }
}
