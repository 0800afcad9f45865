/** What one listener hears over any sequential run of calls on its variable. */
module NotificationChain {
  import opened Wrappers
  import opened ConfigVars

  /** One call. `TextOp` is `fromString` with the outcome of the conversion, and `AddElsewhere` is a
      registration with another variable of the same type, which takes an id from the same counter. */
  datatype Op<T> =
    | SetOp(v: T)
    | TextOp(converted: Option<T>)
    | AddOp(cb: Callback)
    | AddElsewhere
    | DelOp(id: nat)
    | ClearOp

  datatype World<T> = World(s: VarState<T>, last: nat)

  function NextId(last: nat): nat {
    (last + 1) % ID_LIMIT
  }

  function Step<T(==)>(w: World<T>, op: Op<T>): World<T> {
    match op
    case SetOp(v) => w.(s := SetTo(w.s, v))
    case TextOp(None) => w
    case TextOp(Some(v)) => w.(s := SetTo(w.s, v))
    case AddOp(cb) => World(w.s.(callbacks := Insert(w.s.callbacks, NextId(w.last), cb)), NextId(w.last))
    case AddElsewhere => w.(last := NextId(w.last))
    case DelOp(id) => w.(s := w.s.(callbacks := Erase(w.s.callbacks, id)))
    case ClearOp => w.(s := w.s.(callbacks := []))
  }

  function Run<T(==)>(w: World<T>, ops: seq<Op<T>>): World<T>
    decreases |ops|
  {
    if ops == [] then w else Run(Step(w, ops[0]), ops[1..])
  }

  /** One call, made on the objects: the variable `v`, and another one that takes ids from the same counter.
      `text` is what `fromString` is given. */
  method Perform<T(==)>(v: ConfigVar<T>, other: ConfigVar<T>, op: Op<T>, text: string)
    requires v != other && v.ids == other.ids && v.Valid() && other.Valid()
    requires op.TextOp? ==> v.fromText(text) == op.converted
    modifies v, other, v.ids
    ensures v.Valid() && other.Valid()
    ensures World(v.View(), v.ids.last) == Step(old(World(v.View(), v.ids.last)), op)
  {
    hide Insert, Erase, Ascending, SetTo;
    match op {
      case SetOp(w) => v.SetValue(w);
      case TextOp(_) => var _ := v.FromString(text);
      case AddOp(cb) => var _ := v.AddListener(cb);
      case AddElsewhere => var _ := other.AddListener(0);
      case DelOp(id) => v.DelListener(id);
      case ClearOp => v.ClearListener();
    }
  }

  function Additions<T>(ops: seq<Op<T>>): nat {
    if ops == [] then 0
    else (if ops[0].AddOp? || ops[0].AddElsewhere? then 1 else 0) + Additions(ops[1..])
  }

  /** No id beyond the counter is in use. */
  ghost predicate Fresh<T>(w: World<T>) {
    Ascending(w.s.callbacks) && forall e | e in w.s.callbacks :: e.0 <= w.last
  }

  /** The listener is registered before, between and after the calls of the run. */
  ghost predicate Throughout<T>(w: World<T>, ops: seq<Op<T>>, id: nat)
    decreases |ops|
  {
    Registered(w.s.callbacks, id) && (ops != [] ==> Throughout(Step(w, ops[0]), ops[1..], id))
  }

  /** The pairs (old, new) that listener `id` was called with. */
  function Heard<T>(calls: seq<Call<T>>, id: nat): seq<(T, T)> {
    if calls == [] then []
    else (if calls[0].id == id then [(calls[0].oldValue, calls[0].newValue)] else []) + Heard(calls[1..], id)
  }

  /** Each pair starts where the one before it ended, and none is a pair of equal values. */
  ghost predicate Chains<T>(heard: seq<(T, T)>, first: T, last: T) {
    if heard == [] then first == last
    else heard[0].0 == first && heard[0].1 != first && Chains(heard[1..], heard[0].1, last)
  }

  lemma {:induction false} HeardAppend<T>(a: seq<Call<T>>, b: seq<Call<T>>, id: nat)
    ensures Heard(a + b, id) == Heard(a, id) + Heard(b, id)
  {
    if a == [] {
      assert a + b == b;
    } else {
      assert (a + b)[1..] == a[1..] + b;
      HeardAppend(a[1..], b, id);
      Assoc(if a[0].id == id then [(a[0].oldValue, a[0].newValue)] else [], Heard(a[1..], id), Heard(b, id));
    }
  }

  /** One notification pass calls a listener exactly once if it is registered, and never otherwise. */
  lemma {:induction false} HeardOnce<T>(cs: Callbacks, id: nat, oldValue: T, newValue: T)
    requires Ascending(cs)
    ensures Heard(Notify(cs, oldValue, newValue), id) == if Registered(cs, id) then [(oldValue, newValue)] else []
  {
    if cs != [] {
      var rest := cs[1..];
      assert forall k | 0 <= k < |rest| :: rest[k] == cs[k + 1];
      assert Notify(cs, oldValue, newValue)[1..] == Notify(rest, oldValue, newValue);
      HeardOnce(rest, id, oldValue, newValue);
      if cs[0].0 == id {
        assert Above(rest, id) && !Registered(rest, id);
      } else if Registered(cs, id) {
        var k :| 0 <= k < |cs| && cs[k].0 == id;
        assert rest[k - 1].0 == id;
      }
    }
  }

  /** A pass is one call for each registered listener, in the order of their ids, all with the same values. */
  lemma {:induction false} PassIsInOrder<T>(cs: Callbacks, oldValue: T, newValue: T)
    requires Ascending(cs)
    ensures var calls := Notify(cs, oldValue, newValue);
            && |calls| == |cs| && (forall i, j | 0 <= i < j < |calls| :: calls[i].id < calls[j].id)
            && (forall c | c in calls :: (c.id, c.cb) in cs && c.oldValue == oldValue && c.newValue == newValue)
            && (forall e | e in cs :: Call(e.0, e.1, oldValue, newValue) in calls)
  {
    IdsAreUnique(cs);
    var calls := Notify(cs, oldValue, newValue);
    forall e | e in cs ensures Call(e.0, e.1, oldValue, newValue) in calls {
      var i :| 0 <= i < |cs| && cs[i] == e;
      assert calls[i] == Call(e.0, e.1, oldValue, newValue);
    }
  }

  /** A new id is not in use, and registering appends: nothing is overwritten. */
  lemma {:induction false} NewIdIsFresh<T>(w: World<T>, cb: Callback)
    requires Fresh(w) && w.last + 1 < ID_LIMIT
    ensures !Registered(w.s.callbacks, NextId(w.last))
    ensures Step(w, AddOp(cb)).s.callbacks == w.s.callbacks + [(NextId(w.last), cb)]
  {
    if i :| 0 <= i < |w.s.callbacks| && w.s.callbacks[i].0 == NextId(w.last) {
      assert w.s.callbacks[i] in w.s.callbacks;
    }
    InsertLast(w.s.callbacks, NextId(w.last), cb);
  }

  lemma {:induction false} InsertLast(cs: Callbacks, id: nat, cb: Callback)
    requires forall e | e in cs :: e.0 < id
    ensures Insert(cs, id, cb) == cs + [(id, cb)]
  {
    if cs != [] {
      assert cs[0] in cs;
      InsertLast(cs[1..], id, cb);
    }
  }

  lemma SetKeepsCallbacks<T>(s: VarState<T>, v: T)
    ensures SetTo(s, v).callbacks == s.callbacks
  {
  }

  lemma {:induction false} StepKeepsFresh<T>(w: World<T>, op: Op<T>)
    requires Fresh(w) && w.last + Additions([op]) < ID_LIMIT
    ensures Fresh(Step(w, op)) && Step(w, op).last == w.last + Additions([op])
  {
    hide Insert, Erase, SetTo;
    assert [op][1..] == [];
    match op {
      case AddOp(cb) => InsertKeepsOrder(w.s.callbacks, NextId(w.last), cb);
      case DelOp(id) => EraseKeepsOrder(w.s.callbacks, id);
      case SetOp(v) => SetKeepsCallbacks(w.s, v);
      case TextOp(Some(v)) => SetKeepsCallbacks(w.s, v);
      case _ =>
    }
  }

  lemma {:induction false} AdditionsCons<T>(ops: seq<Op<T>>)
    requires ops != []
    ensures Additions(ops) == Additions([ops[0]]) + Additions(ops[1..])
  {
    assert [ops[0]][1..] == [];
  }

  lemma {:induction false} StepChains<T>(w: World<T>, op: Op<T>, id: nat)
    requires Fresh(w) && Registered(w.s.callbacks, id)
    ensures var after := Step(w, op);
            && w.s.calls <= after.s.calls
            && var heard := Heard(after.s.calls[|w.s.calls|..], id);
               heard == if after.s.val == w.s.val then [] else [(w.s.val, after.s.val)]
  {
    HeardOnce(w.s.callbacks, id, w.s.val, Step(w, op).s.val);
  }

  lemma {:induction false} RunExtends<T>(w: World<T>, ops: seq<Op<T>>)
    ensures w.s.calls <= Run(w, ops).s.calls
    decreases |ops|
  {
    hide Step;
    if ops != [] {
      StepExtends(w, ops[0]);
      RunExtends(Step(w, ops[0]), ops[1..]);
    }
  }

  lemma StepExtends<T>(w: World<T>, op: Op<T>)
    ensures w.s.calls <= Step(w, op).s.calls
  {
  }

  lemma SplitCalls<T>(a: seq<T>, b: seq<T>, c: seq<T>)
    requires a <= b <= c
    ensures c[|a|..] == b[|a|..] + c[|b|..]
  {
  }

  /** A listener registered throughout a run hears a chain from the value at its start to the value at
      its end, as long as the 64-bit id counter does not wrap. */
  lemma {:induction false} ListenerHearsChain<T>(w: World<T>, ops: seq<Op<T>>, id: nat)
    requires Fresh(w) && w.last + Additions(ops) < ID_LIMIT && Throughout(w, ops, id)
    ensures w.s.calls <= Run(w, ops).s.calls
    ensures Chains(Heard(Run(w, ops).s.calls[|w.s.calls|..], id), w.s.val, Run(w, ops).s.val)
    ensures Fresh(Run(w, ops))
    decreases |ops|
  {
    hide Step, Fresh, Registered;
    RunExtends(w, ops);
    if ops == [] {
      assert w.s.calls[|w.s.calls|..] == [];
    } else {
      var mid, end := Step(w, ops[0]), Run(w, ops);
      AdditionsCons(ops);
      StepKeepsFresh(w, ops[0]);
      StepChains(w, ops[0], id);
      RunExtends(mid, ops[1..]);
      ListenerHearsChain(mid, ops[1..], id);
      SplitCalls(w.s.calls, mid.s.calls, end.s.calls);
      HeardAppend(mid.s.calls[|w.s.calls|..], end.s.calls[|mid.s.calls|..], id);
      var later := Heard(end.s.calls[|mid.s.calls|..], id);
      assert ([(w.s.val, mid.s.val)] + later)[1..] == later;
      assert [] + later == later;
    }
  }
}
