/** What a load leaves behind, and what no run of registry operations changes. */
module ConfigLaws {
  import opened Wrappers
  import opened Yaml
  import opened ConfigVars
  import opened Configs

  // ---------- the last convertible node wins ----------

  predicate Converts<T>(m: Member, key: string, fromText: string -> Option<T>, emit: Node -> string) {
    Addresses(m, key) && fromText(NodeText(m.1, emit)).Some?
  }

  /** With no node that converts, a load changes nothing about the variable. */
  lemma {:induction false} NoWriter<T>(s: VarState<T>, members: seq<Member>, key: string,
                                       fromText: string -> Option<T>, emit: Node -> string)
    requires forall i | 0 <= i < |members| :: !Converts(members[i], key, fromText, emit)
    ensures LoadVar(s, members, key, fromText, emit) == s
  {
    hide Addresses, NodeText, SetTo;
    if members != [] {
      assert !Converts(members[|members| - 1], key, fromText, emit);
      NoWriter(s, members[..|members| - 1], key, fromText, emit);
    }
  }

  /** Otherwise the variable holds the conversion of the last node, in preorder, that converts. */
  lemma {:induction false} LastWriterWins<T>(s: VarState<T>, members: seq<Member>, j: nat, key: string,
                                             fromText: string -> Option<T>, emit: Node -> string)
    requires j < |members| && Converts(members[j], key, fromText, emit)
    requires forall i | j < i < |members| :: !Converts(members[i], key, fromText, emit)
    ensures Some(LoadVar(s, members, key, fromText, emit).val) == fromText(NodeText(members[j].1, emit))
  {
    hide Addresses, NodeText;
    var before := members[..|members| - 1];
    if j < |before| {
      assert !Converts(members[|members| - 1], key, fromText, emit);
      LastWriterWins(s, before, j, key, fromText, emit);
    }
  }

  // ---------- loading twice ----------

  /** The values a variable is set to by a load, in order. */
  function Values<T>(members: seq<Member>, key: string, fromText: string -> Option<T>, emit: Node -> string): seq<T> {
    if members == [] then [] else
    var before := Values(members[..|members| - 1], key, fromText, emit);
    if Converts(Last(members), key, fromText, emit)
    then before + [fromText(NodeText(Last(members).1, emit)).value]
    else before
  }

  function SetAll<T(==)>(s: VarState<T>, vs: seq<T>): VarState<T> {
    if vs == [] then s else SetTo(SetAll(s, vs[..|vs| - 1]), Last(vs))
  }

  lemma {:induction false} LoadSetsAll<T>(s: VarState<T>, members: seq<Member>, key: string,
                                          fromText: string -> Option<T>, emit: Node -> string)
    ensures LoadVar(s, members, key, fromText, emit) == SetAll(s, Values(members, key, fromText, emit))
  {
    hide SetTo;
    if members != [] {
      var before := members[..|members| - 1];
      LoadSetsAll(s, before, key, fromText, emit);
      var vs := Values(before, key, fromText, emit);
      if Converts(Last(members), key, fromText, emit) {
        var v := fromText(NodeText(Last(members).1, emit)).value;
        assert (vs + [v])[..|vs|] == vs;
      }
    }
  }

  lemma {:induction false} SetAllValue<T>(s: VarState<T>, vs: seq<T>)
    ensures SetAll(s, vs).val == if vs == [] then s.val else Last(vs)
    ensures SetAll(s, vs).callbacks == s.callbacks && s.calls <= SetAll(s, vs).calls
  {
    if vs != [] {
      SetAllValue(s, vs[..|vs| - 1]);
    }
  }

  lemma SetToCalls<T>(s: VarState<T>, v: T)
    ensures |SetTo(s, v).calls| == |s.calls| <==> s.callbacks == [] || v == s.val
    ensures |SetTo(s, v).calls| >= |s.calls|
  {
  }

  ghost predicate AllAre<T>(vs: seq<T>, v: T) {
    forall k | 0 <= k < |vs| :: vs[k] == v
  }

  lemma {:induction false} SetAllCalls<T>(s: VarState<T>, vs: seq<T>)
    ensures SetAll(s, vs).calls == s.calls <==> s.callbacks == [] || AllAre(vs, s.val)
  {
    hide SetTo;
    if vs != [] {
      var before := vs[..|vs| - 1];
      SetAllValue(s, before);
      SetAllValue(s, vs);
      SetAllCalls(s, before);
      SetToCalls(SetAll(s, before), Last(vs));
      assert forall k | 0 <= k < |before| :: before[k] == vs[k];
    }
  }

  /** Loading a tree again never changes a value; it calls a listener exactly when some listener is
      registered and the tree offers the variable two different values. */
  lemma {:induction false} SecondLoad<T>(s: VarState<T>, members: seq<Member>, key: string,
                                         fromText: string -> Option<T>, emit: Node -> string)
    ensures var once := LoadVar(s, members, key, fromText, emit);
            var twice := LoadVar(once, members, key, fromText, emit);
            var vs := Values(members, key, fromText, emit);
            && twice.val == once.val && twice.callbacks == once.callbacks == s.callbacks
            && (twice.calls == once.calls <==> s.callbacks == [] || vs == [] || AllAre(vs, vs[0]))
  {
    hide LoadVar, Values, SetAll;
    var vs := Values(members, key, fromText, emit);
    var once := SetAll(s, vs);
    LoadSetsAll(s, members, key, fromText, emit);
    SetAllValue(s, vs);
    LoadSetsAll(once, members, key, fromText, emit);
    SetAllValue(once, vs);
    SetAllCalls(once, vs);
  }

  lemma {:induction false} ValuesCome<T>(members: seq<Member>, key: string, fromText: string -> Option<T>,
                                         emit: Node -> string, v: T)
    ensures v in Values(members, key, fromText, emit) <==>
            exists j | 0 <= j < |members| ::
              Converts(members[j], key, fromText, emit) && fromText(NodeText(members[j].1, emit)) == Some(v)
  {
    if members != [] {
      var before := members[..|members| - 1];
      ValuesCome(before, key, fromText, emit, v);
      assert forall j | 0 <= j < |before| :: before[j] == members[j];
      if j :| 0 <= j < |members| && Converts(members[j], key, fromText, emit)
              && fromText(NodeText(members[j].1, emit)) == Some(v) {
        assert j < |before| ==> before[j] == members[j];
      }
    }
  }

  /** In particular a variable that at most one node addresses and converts for hears nothing twice. */
  lemma {:induction false} SecondLoadIsQuiet<T>(s: VarState<T>, members: seq<Member>, key: string,
                                                fromText: string -> Option<T>, emit: Node -> string)
    requires forall i, j | 0 <= i < j < |members| ::
               !(Converts(members[i], key, fromText, emit) && Converts(members[j], key, fromText, emit))
    ensures var once := LoadVar(s, members, key, fromText, emit);
            LoadVar(once, members, key, fromText, emit) == once
  {
    hide LoadVar, Values, Converts;
    var once := LoadVar(s, members, key, fromText, emit);
    SecondLoad(s, members, key, fromText, emit);
    var vs := Values(members, key, fromText, emit);
    forall k | 0 <= k < |vs| ensures vs[k] == vs[0] {
      ValuesCome(members, key, fromText, emit, vs[k]);
      ValuesCome(members, key, fromText, emit, vs[0]);
    }
  }

  // ---------- keys with capitals ----------

  predicate HasCapital(key: string) {
    exists k | 0 <= k < |key| :: 'A' <= key[k] <= 'Z'
  }

  lemma LowerIsLower(s: string)
    ensures !HasCapital(Lower(s))
    ensures Lower(s) == s <==> !HasCapital(s)
  {
    if k :| 0 <= k < |s| && 'A' <= s[k] <= 'Z' {
      assert Lower(s)[k] != s[k];
    }
  }

  /** Every path that is listed is spelled in the alphabet. */
  lemma {:induction false} PathsAreAllowed(prefix: string, node: Node, m: Member)
    requires m in Flatten(prefix, node)
    ensures Allowed(m.0)
    decreases node, 1
  {
    hide Allowed, FlattenEntries;
    if m != (prefix, node) {
      EntryPathsAreAllowed(prefix, node.entries, m);
    }
  }

  lemma {:induction false} EntryPathsAreAllowed(prefix: string, entries: seq<Entry>, m: Member)
    requires m in FlattenEntries(prefix, entries)
    ensures Allowed(m.0)
    decreases entries, 0
  {
    hide Allowed, Flatten, Join;
    if m in Flatten(Join(prefix, entries[0].key), entries[0].value) {
      PathsAreAllowed(Join(prefix, entries[0].key), entries[0].value, m);
    } else {
      EntryPathsAreAllowed(prefix, entries[1..], m);
    }
  }

  lemma LowerIsAllowed(s: string)
    requires Allowed(s)
    ensures Allowed(Lower(s))
  {
    assert forall k | 0 <= k < |s| :: Lower(s)[k] == LowerChar(s[k]) && AllowedChar(LowerChar(s[k]));
  }

  /** A tree with one key. */
  lemma {:induction false} OneKeyListed(key: string, value: Node)
    requires Allowed(key)
    ensures (key, value) in Flatten("", Mapping([Entry(key, value)]))
  {
    var entries := [Entry(key, value)];
    assert Flatten("", Mapping(entries)) == [("", Mapping(entries))] + FlattenEntries("", entries);
    assert FlattenEntries("", entries) == Flatten(key, value) + FlattenEntries("", entries[1..]);
    assert (key, value) == Flatten(key, value)[0];
  }

  /** Lowering a letter, by the alphabets, and nothing else. */
  lemma {:induction false} LowerByAlphabet(s: string, k: nat)
    requires k < |s|
    ensures |Lower(s)| == |s|
    ensures var small, capital := "abcdefghijklmnopqrstuvwxyz", "ABCDEFGHIJKLMNOPQRSTUVWXYZ";
            if s[k] in capital then exists i :: 0 <= i < 26 && s[k] == capital[i] && Lower(s)[k] == small[i]
            else Lower(s)[k] == s[k]
  {
    CapitalLetters(s[k]);
    if 'A' <= s[k] <= 'Z' {
      LetterNumber(s[k]);
    }
  }

  lemma LetterNumber(c: char)
    requires 'A' <= c <= 'Z'
    ensures var small, capital, i := "abcdefghijklmnopqrstuvwxyz", "ABCDEFGHIJKLMNOPQRSTUVWXYZ", c as int - 'A' as int;
            c == capital[i] && LowerChar(c) == small[i]
  {
    var small, capital, i := "abcdefghijklmnopqrstuvwxyz", "ABCDEFGHIJKLMNOPQRSTUVWXYZ", c as int - 'A' as int;
    assert capital[i] == c;
    assert small[i] == LowerChar(c);
  }

  /** Some tree lists a node that is offered to the variable of this key. */
  ghost predicate Reachable(key: string) {
    exists root, m :: m in Flatten("", root) && Addresses(m, key)
  }

  /** A variable can be loaded from some tree exactly when its key is not empty, is spelled in the alphabet
      and has no capital letter. */
  lemma {:induction false} CapitalsAreNeverLoaded(key: string)
    ensures Reachable(key) <==> key != "" && Allowed(key) && !HasCapital(key)
  {
    hide Allowed, Flatten, HasCapital, Lower;
    LowerIsLower(key);
    if root, m :| m in Flatten("", root) && Addresses(m, key) {
      LowerIsLower(m.0);
      PathsAreAllowed("", root, m);
      LowerIsAllowed(m.0);
      LowerNotEmpty(m.0);
    }
    if key != "" && Allowed(key) && !HasCapital(key) {
      OneKeyListed(key, Null);
      assert Addresses((key, Null), key);
    }
  }

  lemma LowerNotEmpty(s: string)
    ensures Lower(s) == "" <==> s == ""
  {
    assert |Lower(s)| == |s|;
  }

  // ---------- loading one node ----------

  /** Below a node, listed paths are longer than the node's own. */
  lemma {:induction false} PathsBelowAreLonger(prefix: string, entries: seq<Entry>, m: Member)
    requires prefix != "" && m in FlattenEntries(prefix, entries)
    ensures |m.0| > |prefix|
    decreases entries, 0
  {
    hide Allowed;
    var first := Flatten(Join(prefix, entries[0].key), entries[0].value);
    if m in first {
      PathsFromAreLonger(Join(prefix, entries[0].key), entries[0].value, m);
    } else {
      PathsBelowAreLonger(prefix, entries[1..], m);
    }
  }

  lemma {:induction false} PathsFromAreLonger(prefix: string, node: Node, m: Member)
    requires prefix != "" && m in Flatten(prefix, node)
    ensures |m.0| >= |prefix|
    decreases node, 1
  {
    hide Allowed;
    if m != (prefix, node) {
      PathsBelowAreLonger(prefix, node.entries, m);
    }
  }

  lemma {:induction false} OneNodeMembers(path: string, node: Node)
    requires path != "" && Allowed(path)
    ensures var members := Flatten("", Mapping([Entry(path, node)]));
            && |members| >= 2 && members[0].0 == "" && members[1] == (path, node)
            && forall i | 2 <= i < |members| :: |members[i].0| > |path|
  {
    var entries := [Entry(path, node)];
    assert Flatten("", Mapping(entries)) == [("", Mapping(entries))] + FlattenEntries("", entries);
    assert FlattenEntries("", entries) == Flatten(path, node) + FlattenEntries("", entries[1..]);
    assert FlattenEntries("", entries[1..]) == [];
    hide Allowed;
    var below := if node.Mapping? then FlattenEntries(path, node.entries) else [];
    assert Flatten(path, node) == [(path, node)] + below;
    forall i | 0 <= i < |below| ensures |below[i].0| > |path| {
      PathsBelowAreLonger(path, node.entries, below[i]);
    }
  }

  /** A tree with one key and any node under it, spelled in any case. The variable of that key in lower case
      is given the text of the node if it is a scalar, and otherwise the node's emitted text; if that
      converts, it is set to the outcome, and if not it keeps its state. */
  lemma {:induction false} LoadOneNode<T>(s: VarState<T>, path: string, node: Node, fromText: string -> Option<T>,
                                          emit: Node -> string)
    requires path != "" && Allowed(path)
    ensures var after := LoadVar(s, Flatten("", Mapping([Entry(path, node)])), Lower(path), fromText, emit);
            match fromText(match node case Scalar(text) => text case _ => emit(node))
            case Some(v) => after == SetTo(s, v) && after.val == v
            case None => after == s
  {
    var members, key := Flatten("", Mapping([Entry(path, node)])), Lower(path);
    OneNodeMembers(path, node);
    var text := match node case Scalar(text) => text case _ => emit(node);
    assert NodeText(node, emit) == text;
    hide Flatten, Allowed, SetTo;
    assert forall i | 2 <= i < |members| :: |Lower(members[i].0)| > |path| && !Addresses(members[i], key);
    LoadPrefix(s, members, 2, key, fromText, emit);
    assert members[..2] == [members[0]] + [members[1]] && members[..2][..1] == [members[0]];
    assert LoadVar(s, [members[0]], key, fromText, emit) == s by {
      assert [members[0]][..0] == [];
    }
    if fromText(text).Some? {
      SetToValue(s, fromText(text).value);
    }
  }

  lemma SetToValue<T>(s: VarState<T>, v: T)
    ensures SetTo(s, v).val == v
  {
  }

  /** Members that do not address the variable add nothing. */
  lemma {:induction false} LoadPrefix<T>(s: VarState<T>, members: seq<Member>, n: nat, key: string,
                                         fromText: string -> Option<T>, emit: Node -> string)
    requires n <= |members| && forall i | n <= i < |members| :: !Addresses(members[i], key)
    ensures LoadVar(s, members, key, fromText, emit) == LoadVar(s, members[..n], key, fromText, emit)
    decreases |members|
  {
    hide Addresses, SetTo, NodeText;
    if n == |members| {
      assert members[..n] == members;
    } else {
      var before := members[..|members| - 1];
      LoadPrefix(s, before, n, key, fromText, emit);
      assert before[..n] == members[..n];
    }
  }

  // ---------- permanence ----------

  /** `made` is the variable that a lookup creates if it finds none. */
  datatype RegOp<T(==)> =
    | LookupOp(name: string, typeName: string, defaultValue: T, made: ConfigVar<T>)
    | FindOp(name: string, typeName: string)
    | LoadOp(root: Node, emit: Node -> string)

  function StepReg<T(==)>(reg: Registry<T>, op: RegOp<T>): Registry<T> {
    match op
    case LookupOp(name, _, defaultValue, made) => LookupIn(reg, name, defaultValue, made)
    case FindOp(_, _) => reg
    case LoadOp(root, emit) => LoadIn(reg, root, emit)
  }

  function RunReg<T(==)>(reg: Registry<T>, ops: seq<RegOp<T>>): Registry<T>
    decreases |ops|
  {
    if ops == [] then reg else RunReg(StepReg(reg, ops[0]), ops[1..])
  }

  /** What a lookup creates is a new variable of the right name and type. */
  ghost predicate MakesNew<T>(reg: Registry<T>, op: RegOp<T>) {
    op.LookupOp? ==>
      && op.made.name == Lower(op.name) && op.made.typeName == op.typeName
      && forall k | k in reg :: reg[k].v != op.made
  }

  ghost predicate Legal<T>(reg: Registry<T>, ops: seq<RegOp<T>>)
    decreases |ops|
  {
    ops != [] ==> MakesNew(reg, ops[0]) && Legal(StepReg(reg, ops[0]), ops[1..])
  }

  /** Bound keys are in the alphabet, each variable is named by its key in lower case, and no two keys
      share a variable. */
  ghost predicate RegValid<T>(reg: Registry<T>) {
    && (forall k | k in reg :: Allowed(k) && reg[k].v.name == Lower(k))
    && (forall k, l | k in reg && l in reg && k != l :: reg[k].v != reg[l].v)
  }

  /** What is bound to `key` is the very same variable in both registries; if its key is empty or has a
      capital, it is also unchanged. */
  ghost predicate Kept<T>(a: Registry<T>, b: Registry<T>, key: string) {
    key in a ==> key in b && b[key].v == a[key].v && (HasCapital(key) || key == "" ==> b[key] == a[key])
  }

  lemma {:induction false} LoadSkipsCapitals<T>(s: VarState<T>, members: seq<Member>, key: string,
                                                fromText: string -> Option<T>, emit: Node -> string)
    requires HasCapital(key) || key == ""
    ensures LoadVar(s, members, key, fromText, emit) == s
  {
    hide HasCapital, Lower;
    if members != [] {
      LowerNotEmpty(Last(members).0);
      LoadSkipsCapitals(s, members[..|members| - 1], key, fromText, emit);
      LowerIsLower(Last(members).0);
    }
  }

  lemma {:induction false} StepKeeps<T>(reg: Registry<T>, op: RegOp<T>, key: string)
    requires RegValid(reg) && MakesNew(reg, op)
    ensures RegValid(StepReg(reg, op)) && Kept(reg, StepReg(reg, op), key)
  {
    hide LoadVar, Flatten, HasCapital, Lower, Allowed;
    if op.LoadOp? && key in reg && (HasCapital(key) || key == "") {
      LoadSkipsCapitals(reg[key].state, Flatten("", op.root), key, reg[key].v.fromText, op.emit);
    }
  }

  /** Over any run: a bound name keeps the very variable it is bound to, bound keys stay in the alphabet,
      each variable is named by its key in lower case, and no two keys come to share one. */
  lemma {:induction false} RunKeeps<T>(reg: Registry<T>, ops: seq<RegOp<T>>, key: string)
    requires RegValid(reg) && Legal(reg, ops)
    ensures RegValid(RunReg(reg, ops)) && Kept(reg, RunReg(reg, ops), key)
    decreases |ops|
  {
    hide StepReg, RegValid, HasCapital, MakesNew;
    if ops != [] {
      StepKeeps(reg, ops[0], key);
      RunKeeps(StepReg(reg, ops[0]), ops[1..], key);
    }
  }

  /** The first lookup of a name in a run. */
  function FirstLookup<T(==)>(ops: seq<RegOp<T>>, name: string): (r: Option<RegOp<T>>)
    ensures r.Some? ==> r.value.LookupOp? && r.value.name == name
  {
    if ops == [] then None
    else if ops[0].LookupOp? && ops[0].name == name then Some(ops[0])
    else FirstLookup(ops[1..], name)
  }

  lemma {:induction false} FindAfterStep<T>(reg: Registry<T>, op: RegOp<T>, name: string, typeName: string)
    requires MakesNew(reg, op)
    ensures name in StepReg(reg, op) <==> name in reg || (Allowed(name) && op.LookupOp? && op.name == name)
    ensures FindIn(StepReg(reg, op), name, typeName) ==
            if name !in reg && Allowed(name) && op.LookupOp? && op.name == name && op.typeName == typeName
            then Some(op.made)
            else FindIn(reg, name, typeName)
  {
    hide LoadVar, Flatten, Lower, Allowed;
  }

  /** After any run, a name is found, under one type only, exactly if it was before or an allowed name was
      looked up with that type first; and what is found is the variable that this lookup made. */
  lemma {:induction false} FindAfterRun<T>(reg: Registry<T>, ops: seq<RegOp<T>>, name: string, typeName: string)
    requires Legal(reg, ops)
    ensures FindIn(RunReg(reg, ops), name, typeName) ==
            if name in reg then FindIn(reg, name, typeName)
            else match FirstLookup(ops, name)
              case None => None
              case Some(op) => if Allowed(name) && op.typeName == typeName then Some(op.made) else None
    decreases |ops|
  {
    hide StepReg, MakesNew, Allowed;
    if ops != [] {
      hide FindIn;
      FindAfterStep(reg, ops[0], name, typeName);
      FindAfterRun(StepReg(reg, ops[0]), ops[1..], name, typeName);
      NotFound(reg, name, typeName);
    }
  }

  lemma NotFound<T>(reg: Registry<T>, name: string, typeName: string)
    ensures name !in reg ==> FindIn(reg, name, typeName) == None
  {
  }
}
