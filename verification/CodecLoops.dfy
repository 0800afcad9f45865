/** The container conversions as the loops that fill a node or a container element by element. */
module CodecLoops {
  import opened Wrappers
  import opened Yaml
  import opened Codec

  /** Stops at the first element whose text does not load. */
  method ToText(y: Library, v: Val) returns (s: Option<string>)
    requires Iterates(y)
    ensures s == Encode(y, v)
    decreases v, 1
  {
    hide Iterates, Enumerates, NodesOf, EntriesOf;
    match v {
      case ScalarVal(x) =>
        s := Some(y.toText(x));
      case SeqVal(items) =>
        var nodes := PushAll(y, v, items);
        s := EmittedSeq(y, nodes);
      case SetVal(members) =>
        InOrder(y, members);
        var nodes := PushAll(y, v, y.setOrder(members));
        s := EmittedSeq(y, nodes);
      case MapVal(entries) =>
        KeysInOrder(y, entries.Keys);
        var es := SetEntries(y, v, y.keyOrder(entries.Keys));
        s := EmittedMap(y, es);
    }
  }

  method PushAll(y: Library, ghost v: Val, items: seq<Val>) returns (r: Option<seq<Node>>)
    requires Iterates(y) && forall i | 0 <= i < |items| :: items[i] < v
    ensures r == NodesOf(y, v, items)
    decreases v, 0
  {
    hide Iterates, Encode;
    var nodes: seq<Node> := [];
    for i := 0 to |items|
      invariant NodesOf(y, v, items[..i]) == Some(nodes)
    {
      assert items[..i + 1][..i] == items[..i];
      var text := ToText(y, items[i]);
      var node := LoadText(y, text);
      if node.None? {
        PushFailsEarly(y, v, items, i + 1);
        return None;
      }
      nodes := nodes + [node.value];
    }
    assert items[..|items|] == items;
    r := Some(nodes);
  }

  lemma {:induction false} PushFailsEarly(y: Library, v: Val, items: seq<Val>, i: nat)
    requires Iterates(y) && forall k | 0 <= k < |items| :: items[k] < v
    requires i <= |items| && NodesOf(y, v, items[..i]).None?
    ensures NodesOf(y, v, items).None?
    decreases |items|
  {
    hide Iterates, Encode;
    if i == |items| {
      assert items[..i] == items;
    } else {
      assert items[..|items| - 1][..i] == items[..i];
      PushFailsEarly(y, v, items[..|items| - 1], i);
    }
  }

  method SetEntries(y: Library, v: Val, keys: seq<string>) returns (r: Option<seq<Entry>>)
    requires Iterates(y) && v.MapVal? && forall i | 0 <= i < |keys| :: keys[i] in v.entries
    ensures r == EntriesOf(y, v, keys)
    decreases v, 0
  {
    hide Iterates, Encode;
    var entries: seq<Entry> := [];
    for i := 0 to |keys|
      invariant EntriesOf(y, v, keys[..i]) == Some(entries)
    {
      assert keys[..i + 1][..i] == keys[..i];
      var text := ToText(y, v.entries[keys[i]]);
      var node := LoadText(y, text);
      if node.None? {
        SetFailsEarly(y, v, keys, i + 1);
        return None;
      }
      entries := entries + [Entry(keys[i], node.value)];
    }
    assert keys[..|keys|] == keys;
    r := Some(entries);
  }

  lemma {:induction false} SetFailsEarly(y: Library, v: Val, keys: seq<string>, i: nat)
    requires Iterates(y) && v.MapVal? && forall k | 0 <= k < |keys| :: keys[k] in v.entries
    requires i <= |keys| && EntriesOf(y, v, keys[..i]).None?
    ensures EntriesOf(y, v, keys).None?
    decreases |keys|
  {
    hide Iterates, Encode;
    if i == |keys| {
      assert keys[..i] == keys;
    } else {
      assert keys[..|keys| - 1][..i] == keys[..i];
      SetFailsEarly(y, v, keys[..|keys| - 1], i);
    }
  }

  method FromText(y: Library, ty: Ty, s: string) returns (r: Option<Val>)
    ensures r == Decode(y, ty, s)
    decreases ty, 1
  {
    hide DecodeItems, DecodeEntries;
    match ty {
      case ScalarTy(kind) =>
        var x := y.ofText(kind, s);
        r := match x case None => None case Some(w) => Some(ScalarVal(w));
      case SeqTy(e) =>
        var items := FillItems(y, e, s);
        r := if items.None? then None else Some(SeqVal(items.value));
      case SetTy(e) =>
        var items := FillItems(y, e, s);
        r := if items.None? then None else Some(SetVal(SetOf(items.value)));
      case MapTy(e) =>
        var loaded := y.load(s);
        if loaded.None? || EntriesIn(loaded.value).None? {
          return None;
        }
        var entries := FillEntries(y, e, EntriesIn(loaded.value).value);
        r := if entries.None? then None else Some(MapVal(entries.value));
    }
  }

  /** Stops at the first element that does not convert. */
  method FillItems(y: Library, e: Ty, s: string) returns (r: Option<seq<Val>>)
    ensures r == DecodeAll(y, e, s)
    decreases e, 2
  {
    hide Decode;
    var loaded := y.load(s);
    if loaded.None? || ItemsOf(loaded.value).None? {
      return None;
    }
    var nodes := ItemsOf(loaded.value).value;
    var items: seq<Val> := [];
    for i := 0 to |nodes|
      invariant DecodeItems(y, e, nodes[..i]) == Some(items)
    {
      assert nodes[..i + 1][..i] == nodes[..i];
      var item := FromText(y, e, y.emit(nodes[i]));
      if item.None? {
        FailsEarly(y, e, nodes, i + 1);
        return None;
      }
      items := items + [item.value];
    }
    assert nodes[..|nodes|] == nodes;
    r := Some(items);
  }

  lemma {:induction false} FailsEarly(y: Library, e: Ty, nodes: seq<Node>, i: nat)
    requires i <= |nodes| && DecodeItems(y, e, nodes[..i]).None?
    ensures DecodeItems(y, e, nodes).None?
    decreases |nodes|
  {
    if i == |nodes| {
      assert nodes[..i] == nodes;
    } else {
      assert nodes[..|nodes| - 1][..i] == nodes[..i];
      FailsEarly(y, e, nodes[..|nodes| - 1], i);
    }
  }

  method FillEntries(y: Library, e: Ty, entries: seq<Entry>) returns (r: Option<map<string, Val>>)
    ensures r == DecodeEntries(y, e, entries)
    decreases e, 2
  {
    hide Decode;
    var m: map<string, Val> := map[];
    for i := 0 to |entries|
      invariant DecodeEntries(y, e, entries[..i]) == Some(m)
    {
      assert entries[..i + 1][..i] == entries[..i];
      var v := FromText(y, e, y.emit(entries[i].value));
      if v.None? {
        EntriesFailEarly(y, e, entries, i + 1);
        return None;
      }
      m := InsertEntry(m, entries[i].key, v.value);
    }
    assert entries[..|entries|] == entries;
    r := Some(m);
  }

  lemma {:induction false} EntriesFailEarly(y: Library, e: Ty, entries: seq<Entry>, i: nat)
    requires i <= |entries| && DecodeEntries(y, e, entries[..i]).None?
    ensures DecodeEntries(y, e, entries).None?
    decreases |entries|
  {
    if i == |entries| {
      assert entries[..i] == entries;
    } else {
      assert entries[..|entries| - 1][..i] == entries[..i];
      EntriesFailEarly(y, e, entries[..|entries| - 1], i);
    }
  }
}
