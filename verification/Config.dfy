/** The registry of configuration variables, and loading it from a YAML tree. All value types are
    modelled by one type `T`; which C++ type a variable has is its `typeName`. */
module Configs {
  import opened Wrappers
  import opened Yaml
  import opened ConfigVars

  /** `WrongType` is the null pointer of a failed cast, `InvalidName` the exception. */
  datatype LookupResult<T(==)> = Found(v: ConfigVar<T>) | WrongType | InvalidName

  // ---------- what loading does to one variable ----------

  /** The text a variable is given for a node: a scalar's own, or the emitted subtree. */
  function NodeText(node: Node, emit: Node -> string): string {
    if node.Scalar? then node.text else emit(node)
  }

  predicate Addresses(m: Member, key: string) {
    m.0 != "" && Lower(m.0) == key
  }

  function LoadOne<T(==)>(s: VarState<T>, m: Member, key: string, fromText: string -> Option<T>,
                           emit: Node -> string): VarState<T> {
    if !Addresses(m, key) then s
    else match fromText(NodeText(m.1, emit))
      case None => s
      case Some(v) => SetTo(s, v)
  }

  function LoadVar<T(==)>(s: VarState<T>, members: seq<Member>, key: string, fromText: string -> Option<T>,
                           emit: Node -> string): VarState<T> {
    if members == [] then s
    else LoadOne(LoadVar(s, members[..|members| - 1], key, fromText, emit), Last(members), key, fromText, emit)
  }

  // ---------- what each operation does to the registry ----------

  /** A bound name: the variable itself, which carries its own name, type and conversion, and what it
      holds. */
  datatype Slot<T(==)> = Slot(v: ConfigVar<T>, state: VarState<T>)

  type Registry<T(==)> = map<string, Slot<T>>

  /** `made` is the variable that is created if the name is not bound. */
  function LookupIn<T(==)>(reg: Registry<T>, name: string, defaultValue: T, made: ConfigVar<T>): Registry<T> {
    if name in reg || !Allowed(name) then reg
    else reg[name := Slot(made, VarState(defaultValue, [], []))]
  }

  function FindIn<T(==)>(reg: Registry<T>, name: string, typeName: string): Option<ConfigVar<T>> {
    if name in reg && reg[name].v.typeName == typeName then Some(reg[name].v) else None
  }

  function LoadIn<T(==)>(reg: Registry<T>, root: Node, emit: Node -> string): Registry<T> {
    map k | k in reg :: reg[k].(state := LoadVar(reg[k].state, Flatten("", root), k, reg[k].v.fromText, emit))
  }

  class Config<T(==)> {
    var data: map<string, ConfigVar<T>>

    constructor ()
      ensures data == map[] && Valid()
    {
      data := map[];
    }

    ghost function Vars(): set<object>
      reads this
    {
      set k | k in data :: data[k]
    }

    /** Keys are spelled in the allowed alphabet, each variable is named by its key in lower case, and no
        two keys share a variable. */
    ghost predicate Valid()
      reads this, Vars()
    {
      && (forall k | k in data :: Allowed(k) && data[k] in Vars() && data[k].name == Lower(k) && data[k].Valid())
      && (forall k, l | k in data && l in data && k != l :: data[k] != data[l])
    }

    ghost function View(): Registry<T>
      requires Valid()
      reads this, Vars()
    {
      map k | k in data :: Slot(data[k], data[k].View())
    }

    lemma ViewKeys()
      requires Valid()
      ensures View().Keys == data.Keys
    {
    }

    lemma ViewFinds(name: string, typeName: string)
      requires Valid()
      ensures FindIn(View(), name, typeName)
              == if name in data && data[name].typeName == typeName then Some(data[name]) else None
    {
      hide ConfigVar.View, ConfigVar.Valid, Allowed, Lower;
    }

    twostate lemma ValidAdds(name: string)
      requires old(Valid()) && name in data && Allowed(name)
      requires data[name].name == Lower(name) && data[name].Valid()
      requires forall k | k in old(data) :: old(data[k]) != data[name]
      requires data == old(data)[name := data[name]]
      requires forall k | k in old(data) :: old(data[k].Valid()) ==> data[k].Valid()
      ensures Valid()
    {
      hide Allowed, Lower, ConfigVar.Valid;
    }

    twostate lemma ViewAdds(name: string)
      requires old(Valid()) && Valid() && name in data && data.Keys == old(data.Keys) + {name}
      requires forall k | k in old(data) && k != name ::
                 data[k] == old(data[k]) && data[k].View() == old(data[k].View())
      ensures View() == old(View())[name := Slot(data[name], data[name].View())]
    {
      hide ConfigVar.View, Config.Valid;
    }

    /** Finds the variable of that very name, or makes one. The alphabet is checked only when it is made. */
    method Lookup(name: string, typeName: string, defaultValue: T, fromText: string -> Option<T>,
                  toText: T -> Option<string>, ids: ListenerIds) returns (r: LookupResult<T>)
      requires Valid()
      modifies this
      ensures Valid()
      ensures name in old(data) ==>
                data == old(data) && r == if data[name].typeName == typeName then Found(data[name]) else WrongType
      ensures name !in old(data) && !Allowed(name) ==> data == old(data) && r == InvalidName
      ensures name !in old(data) && Allowed(name) ==>
                && r.Found? && fresh(r.v) && data == old(data)[name := r.v]
                && r.v.name == Lower(name) && r.v.typeName == typeName && r.v.fromText == fromText
                && r.v.View() == VarState(defaultValue, [], [])
      ensures View() == if r.Found? then LookupIn(old(View()), name, defaultValue, r.v) else old(View())
      ensures FindIn(View(), name, typeName) == if r.Found? then Some(r.v) else None
    {
      hide Allowed, ConfigVar.Valid, ConfigVar.View, Lower, Config.View, Config.Valid, FindIn;
      ViewKeys();
      ViewFinds(name, typeName);
      if name in data {
        return if data[name].typeName == typeName then Found(data[name]) else WrongType;
      }
      if !Allowed(name) {
        return InvalidName;
      }
      var v := new ConfigVar<T>(name, typeName, defaultValue, fromText, toText, ids);
      data := data[name := v];
      ValidAdds(name);
      ViewAdds(name);
      ViewFinds(name, typeName);
      return Found(v);
    }

    /** A missing name and a variable of another type both give the null pointer. */
    method Find(name: string, typeName: string) returns (r: Option<ConfigVar<T>>)
      requires Valid()
      ensures r == FindIn(View(), name, typeName)
    {
      ViewFinds(name, typeName);
      if name !in data {
        return None;
      }
      r := if data[name].typeName == typeName then Some(data[name]) else None;
    }

    method LookupBase(name: string) returns (r: Option<ConfigVar<T>>)
      ensures r == if name in data then Some(data[name]) else None
    {
      r := if name in data then Some(data[name]) else None;
    }

    /** Offers one member to the variable registered under its path in lower case, if there is one. */
    method Offer(m: Member, emit: Node -> string)
      requires Valid() && m.0 != ""
      modifies Vars()
      ensures Valid()
      ensures forall k | k in data :: data[k].View() == LoadOne(old(data[k].View()), m, k, data[k].fromText, emit)
    {
      hide Allowed, ConfigVar.Valid, Lower, SetTo;
      var key := Lower(m.0);
      var found := LookupBase(key);
      if found.Some? {
        var ok := found.value.FromString(if m.1.Scalar? then m.1.text else emit(m.1));
      }
    }

    /** Every member of the tree is offered, in order. */
    method LoadFromYaml(root: Node, emit: Node -> string)
      requires Valid()
      modifies Vars()
      ensures Valid()
      ensures forall k | k in data ::
                data[k].View() == LoadVar(old(data[k].View()), Flatten("", root), k, data[k].fromText, emit)
      ensures View() == LoadIn(old(View()), root, emit)
    {
      hide Flatten, Config.Valid, ConfigVar.View, LoadOne, LoadVar;
      var allNodes := new MemberList();
      ListAllMember("", root, allNodes);
      ghost var members := allNodes.items;
      forall k | k in data {
        LoadNothing(old(data[k].View()), members, k, data[k].fromText, emit);
      }
      for i := 0 to |allNodes.items|
        invariant allNodes.items == members && Valid()
        invariant forall k | k in data ::
                    data[k].View() == LoadVar(old(data[k].View()), members[..i], k, data[k].fromText, emit)
      {
        forall k | k in data
          ensures LoadVar(old(data[k].View()), members[..i + 1], k, data[k].fromText, emit)
                  == LoadOne(data[k].View(), members[i], k, data[k].fromText, emit)
          ensures members[i].0 == "" ==>
                    LoadVar(old(data[k].View()), members[..i + 1], k, data[k].fromText, emit) == data[k].View()
        {
          LoadNext(old(data[k].View()), members, i, k, data[k].fromText, emit);
        }
        if allNodes.items[i].0 == "" {
          continue;
        }
        Offer(allNodes.items[i], emit);
      }
      assert members[..|members|] == members;
    }
  }

  lemma LoadNothing<T>(s: VarState<T>, members: seq<Member>, key: string, fromText: string -> Option<T>,
                       emit: Node -> string)
    ensures LoadVar(s, members[..0], key, fromText, emit) == s
  {
  }

  lemma {:induction false} LoadNext<T>(s: VarState<T>, members: seq<Member>, i: nat, key: string,
                                       fromText: string -> Option<T>, emit: Node -> string)
    requires i < |members|
    ensures var before := LoadVar(s, members[..i], key, fromText, emit);
            && LoadVar(s, members[..i + 1], key, fromText, emit) == LoadOne(before, members[i], key, fromText, emit)
            && (members[i].0 == "" ==> LoadVar(s, members[..i + 1], key, fromText, emit) == before)
  {
    assert members[..i + 1][..i] == members[..i];
  }
}
