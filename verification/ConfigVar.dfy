/** Configuration variables with change listeners, one call at a time. The concurrent protocol of
    `setValue` is in module SetValueProtocol. */
module ConfigVars {
  import opened Wrappers

  /** Which function is registered; what a listener does is not part of the model. */
  type Callback = nat

  /** A `std::map` from listener id to callback, in iteration order. */
  type Callbacks = seq<(nat, Callback)>

  ghost predicate Above(cs: Callbacks, id: int) {
    forall k | 0 <= k < |cs| :: id < cs[k].0
  }

  ghost predicate Ascending(cs: Callbacks) {
    cs == [] || (Above(cs[1..], cs[0].0) && Ascending(cs[1..]))
  }

  /** `m_callbacks[id] = cb`. */
  function Insert(cs: Callbacks, id: nat, cb: Callback): Callbacks {
    if cs == [] || id < cs[0].0 then [(id, cb)] + cs
    else if id == cs[0].0 then [(id, cb)] + cs[1..]
    else [cs[0]] + Insert(cs[1..], id, cb)
  }

  function Erase(cs: Callbacks, id: nat): Callbacks {
    if cs == [] then [] else if cs[0].0 == id then cs[1..] else [cs[0]] + Erase(cs[1..], id)
  }

  ghost predicate Registered(cs: Callbacks, id: nat) {
    exists i :: 0 <= i < |cs| && cs[i].0 == id
  }

  /** One invocation of a listener. */
  datatype Call<T> = Call(id: nat, cb: Callback, oldValue: T, newValue: T)

  datatype VarState<T> = VarState(val: T, callbacks: Callbacks, calls: seq<Call<T>>)

  /** The invocations of one notification pass. */
  function Notify<T>(cs: Callbacks, oldValue: T, newValue: T): seq<Call<T>> {
    seq(|cs|, i requires 0 <= i < |cs| => Call(cs[i].0, cs[i].1, oldValue, newValue))
  }

  function SetTo<T(==)>(s: VarState<T>, val: T): VarState<T> {
    if val == s.val then s else VarState(val, s.callbacks, s.calls + Notify(s.callbacks, s.val, val))
  }

  const ID_LIMIT: nat := 0x1_0000_0000_0000_0000

  /** The counter that all variables of one value type share. It has 64 bits. */
  class ListenerIds {
    var last: nat

    constructor ()
      ensures last == 0
    {
      last := 0;
    }
  }

  /** `std::transform` with `tolower`, in the C locale. */
  function LowerChar(c: char): char {
    if 'A' <= c <= 'Z' then ('a' as int + (c as int - 'A' as int)) as char else c
  }

  function Lower(s: string): string {
    seq(|s|, i requires 0 <= i < |s| => LowerChar(s[i]))
  }

  /** `typeName` stands for the C++ value type, and the two functions for its conversions, which throw
      (here: give None) on bad input. */
  class ConfigVar<T(==)> {
    const name: string
    const typeName: string
    const fromText: string -> Option<T>
    const toText: T -> Option<string>
    const ids: ListenerIds
    var val: T
    var callbacks: Callbacks
    /** What the listeners have been called with so far. */
    var calls: seq<Call<T>>

    constructor (name: string, typeName: string, defaultValue: T,
                 fromText: string -> Option<T>, toText: T -> Option<string>, ids: ListenerIds)
      ensures this.name == Lower(name) && this.typeName == typeName && this.ids == ids
      ensures this.fromText == fromText && this.toText == toText
      ensures View() == VarState(defaultValue, [], []) && Valid()
    {
      this.name, this.typeName, this.fromText, this.toText := Lower(name), typeName, fromText, toText;
      this.ids, val, callbacks, calls := ids, defaultValue, [], [];
    }

    function View(): VarState<T>
      reads this
    {
      VarState(val, callbacks, calls)
    }

    ghost predicate Valid()
      reads this`callbacks
    {
      Ascending(callbacks)
    }

    method GetValue() returns (r: T)
      ensures r == val
    {
      r := val;
    }

    /** An equal value is dropped; otherwise every listener is called, in id order, before the value is stored. */
    method SetValue(newValue: T)
      modifies this`val, this`calls
      ensures View() == SetTo(old(View()), newValue)
    {
      if newValue == val {
        return;
      }
      for i := 0 to |callbacks|
        invariant val == old(val) && callbacks == old(callbacks)
        invariant calls == old(calls) + Notify(callbacks, val, newValue)[..i]
      {
        calls := calls + [Call(callbacks[i].0, callbacks[i].1, val, newValue)];
      }
      val := newValue;
    }

    /** An exception in the conversion is swallowed and reported as false. */
    method FromString(text: string) returns (ok: bool)
      modifies this`val, this`calls
      ensures ok <==> fromText(text).Some?
      ensures View() == if ok then SetTo(old(View()), fromText(text).value) else old(View())
    {
      match fromText(text) {
        case Some(v) =>
          SetValue(v);
          ok := true;
        case None =>
          ok := false;
      }
    }

    /** A failed conversion gives the empty string. */
    method ToString() returns (text: string)
      ensures text == if toText(val).Some? then toText(val).value else ""
    {
      match toText(val) {
        case Some(t) => text := t;
        case None => text := "";
      }
    }

    /** The new id is the shared counter's next value, modulo 2^64. */
    method AddListener(cb: Callback) returns (id: nat)
      requires Valid()
      modifies this`callbacks, ids
      ensures Valid()
      ensures id == ids.last == (old(ids.last) + 1) % ID_LIMIT
      ensures old(ids.last) < 0xFFFF_FFFF_FFFF_FFFF ==> id == old(ids.last) + 1
      ensures old(ids.last) == 0xFFFF_FFFF_FFFF_FFFF ==> id == 0
      ensures callbacks == Insert(old(callbacks), id, cb)
    {
      ids.last := (ids.last + 1) % ID_LIMIT;
      id := ids.last;
      InsertKeepsOrder(callbacks, id, cb);
      callbacks := Insert(callbacks, id, cb);
    }

    method DelListener(id: nat)
      requires Valid()
      modifies this`callbacks
      ensures Valid()
      ensures callbacks == Erase(old(callbacks), id)
    {
      EraseKeepsOrder(callbacks, id);
      callbacks := Erase(callbacks, id);
    }

    /** At most one callback has a given id. */
    method GetListener(id: nat) returns (cb: Option<Callback>)
      requires Valid()
      ensures forall c :: cb == Some(c) <==> (id, c) in callbacks
    {
      IdsAreUnique(callbacks);
      for i := 0 to |callbacks|
        invariant forall j | 0 <= j < i :: callbacks[j].0 != id
      {
        if callbacks[i].0 == id {
          return Some(callbacks[i].1);
        }
      }
      return None;
    }

    method ClearListener()
      modifies this`callbacks
      ensures callbacks == [] && Valid()
    {
      callbacks := [];
    }
  }

  lemma {:induction false} InsertAbove(cs: Callbacks, id: nat, cb: Callback, bound: int)
    requires Above(cs, bound) && bound < id
    ensures Above(Insert(cs, id, cb), bound)
  {
    if cs != [] && id > cs[0].0 {
      InsertAbove(cs[1..], id, cb, bound);
    }
  }

  lemma {:induction false} EraseAbove(cs: Callbacks, id: nat, bound: int)
    requires Above(cs, bound)
    ensures Above(Erase(cs, id), bound)
  {
    if cs != [] && cs[0].0 != id {
      EraseAbove(cs[1..], id, bound);
    }
  }

  lemma AscendingCons(e: (nat, Callback), cs: Callbacks)
    ensures Ascending([e] + cs) <==> Above(cs, e.0) && Ascending(cs)
  {
    assert ([e] + cs)[1..] == cs;
  }

  lemma {:induction false} IdsAreUnique(cs: Callbacks)
    requires Ascending(cs)
    ensures forall i, j | 0 <= i < j < |cs| :: cs[i].0 < cs[j].0
  {
    if cs != [] {
      IdsAreUnique(cs[1..]);
      assert forall k | 1 <= k < |cs| :: cs[k] == cs[1..][k - 1];
    }
  }

  /** Insertion keeps the order, and changes nothing but the entry for `id`. */
  lemma {:induction false} InsertKeepsOrder(cs: Callbacks, id: nat, cb: Callback)
    requires Ascending(cs)
    ensures Ascending(Insert(cs, id, cb))
    ensures forall e :: e in Insert(cs, id, cb) <==> e == (id, cb) || (e in cs && e.0 != id)
  {
    if cs != [] {
      var first, rest := cs[0], cs[1..];
      assert cs == [first] + rest;
      if id > first.0 {
        InsertKeepsOrder(rest, id, cb);
        InsertAbove(rest, id, cb, first.0);
        AscendingCons(first, Insert(rest, id, cb));
      } else {
        assert id < first.0 ==> Above(cs, id);
        AscendingCons((id, cb), if id == first.0 then rest else cs);
      }
    }
  }

  lemma {:induction false} EraseKeepsOrder(cs: Callbacks, id: nat)
    requires Ascending(cs)
    ensures Ascending(Erase(cs, id))
    ensures forall e :: e in Erase(cs, id) <==> e in cs && e.0 != id
  {
    if cs != [] {
      var first, rest := cs[0], cs[1..];
      assert cs == [first] + rest;
      if first.0 != id {
        EraseKeepsOrder(rest, id);
        EraseAbove(rest, id, first.0);
        AscendingCons(first, Erase(rest, id));
      }
    }
  }
}
