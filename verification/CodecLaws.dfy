/** When conversions between texts and containers succeed, and what they give, element by element. */
module CodecLaws {
  import opened Wrappers
  import opened Yaml
  import opened Codec

  /** The elements of a sequence node convert, all of them, to these values in order. */
  ghost predicate ConvertsTo(y: Library, e: Ty, nodes: seq<Node>, items: seq<Val>) {
    |items| == |nodes| && forall i | 0 <= i < |nodes| :: Decode(y, e, y.emit(nodes[i])) == Some(items[i])
  }

  ghost predicate AllConvert(y: Library, e: Ty, nodes: seq<Node>) {
    forall i | 0 <= i < |nodes| :: Decode(y, e, y.emit(nodes[i])).Some?
  }

  lemma {:induction false} ItemsConvert(y: Library, e: Ty, nodes: seq<Node>)
    ensures DecodeItems(y, e, nodes).Some? <==> AllConvert(y, e, nodes)
    ensures DecodeItems(y, e, nodes).Some? ==> ConvertsTo(y, e, nodes, DecodeItems(y, e, nodes).value)
    decreases |nodes|
  {
    hide Decode;
    if nodes != [] {
      var before := nodes[..|nodes| - 1];
      ItemsConvert(y, e, before);
      assert forall i | 0 <= i < |before| :: before[i] == nodes[i];
      assert AllConvert(y, e, nodes) ==> Decode(y, e, y.emit(nodes[|nodes| - 1])).Some?;
    }
  }

  /** A text that loads as a sequence: the conversion to a vector, a list or a set fails exactly if that of
      some element does, and otherwise has exactly the converted elements, a vector in their order. */
  lemma {:induction false} SequenceConverts(y: Library, e: Ty, s: string, nodes: seq<Node>)
    requires y.load(s) == Some(Sequence(nodes))
    ensures Decode(y, SeqTy(e), s).Some? <==> AllConvert(y, e, nodes)
    ensures Decode(y, SetTy(e), s).Some? <==> AllConvert(y, e, nodes)
    ensures AllConvert(y, e, nodes) ==>
              exists items :: ConvertsTo(y, e, nodes, items) && Decode(y, SeqTy(e), s) == Some(SeqVal(items))
                              && Decode(y, SetTy(e), s) == Some(SetVal(set w | w in items))
  {
    ItemsConvert(y, e, nodes);
    hide AllConvert, ConvertsTo, DecodeItems;
    assert ItemsOf(Sequence(nodes)) == Some(nodes);
    if AllConvert(y, e, nodes) {
      var items := DecodeItems(y, e, nodes).value;
      assert Decode(y, SetTy(e), s) == Some(SetVal(set w | w in items));
    }
  }

  ghost predicate AllEntriesConvert(y: Library, e: Ty, entries: seq<Entry>) {
    forall i | 0 <= i < |entries| :: Decode(y, e, y.emit(entries[i].value)).Some?
  }

  /** No earlier entry has the key of entry `i`. */
  ghost predicate FirstOfKey(entries: seq<Entry>, i: nat)
    requires i < |entries|
  {
    forall j | 0 <= j < i :: entries[j].key != entries[i].key
  }

  /** The map has exactly the keys of the entries, each with the conversion of its first entry. */
  ghost predicate EntriesConvertTo(y: Library, e: Ty, entries: seq<Entry>, m: map<string, Val>) {
    && (forall k | k in m :: exists i :: 0 <= i < |entries| && entries[i].key == k)
    && (forall i | 0 <= i < |entries| :: entries[i].key in m)
    && (forall i | 0 <= i < |entries| && FirstOfKey(entries, i) ::
          Decode(y, e, y.emit(entries[i].value)) == Some(m[entries[i].key]))
  }

  lemma {:induction false} EntriesConvert(y: Library, e: Ty, entries: seq<Entry>)
    ensures DecodeEntries(y, e, entries).Some? <==> AllEntriesConvert(y, e, entries)
    ensures DecodeEntries(y, e, entries).Some? ==>
              EntriesConvertTo(y, e, entries, DecodeEntries(y, e, entries).value)
    decreases |entries|
  {
    hide Decode, EntriesConvertTo;
    if entries == [] {
      NoEntriesConvert(y, e);
    } else {
      var before, last := entries[..|entries| - 1], entries[|entries| - 1];
      EntriesConvert(y, e, before);
      assert entries == before + [last];
      assert forall i | 0 <= i < |before| :: before[i] == entries[i];
      assert AllEntriesConvert(y, e, entries) ==> Decode(y, e, y.emit(last.value)).Some?;
      if DecodeEntries(y, e, entries).Some? {
        OneMoreEntry(y, e, before, last, DecodeEntries(y, e, before).value);
      }
    }
  }

  lemma NoEntriesConvert(y: Library, e: Ty)
    ensures EntriesConvertTo(y, e, [], map[])
  {
  }

  lemma {:induction false} OneMoreEntry(y: Library, e: Ty, before: seq<Entry>, last: Entry, m: map<string, Val>)
    requires EntriesConvertTo(y, e, before, m) && Decode(y, e, y.emit(last.value)).Some?
    ensures EntriesConvertTo(y, e, before + [last], InsertEntry(m, last.key, Decode(y, e, y.emit(last.value)).value))
  {
    hide Decode;
    var entries, n := before + [last], |before|;
    assert forall i | 0 <= i < n :: entries[i] == before[i];
    assert forall i | 0 <= i < n :: FirstOfKey(entries, i) <==> FirstOfKey(before, i);
    assert entries[n] == last;
    if last.key in m {
      var i :| 0 <= i < n && before[i].key == last.key;
      assert entries[i].key == entries[n].key;
    }
  }

  /** A text that loads as a mapping, converted to a map: the same, with the first of equal keys. */
  lemma {:induction false} MappingConverts(y: Library, e: Ty, s: string, entries: seq<Entry>)
    requires y.load(s) == Some(Mapping(entries))
    ensures Decode(y, MapTy(e), s).Some? <==> AllEntriesConvert(y, e, entries)
    ensures AllEntriesConvert(y, e, entries) ==>
              exists m :: EntriesConvertTo(y, e, entries, m) && Decode(y, MapTy(e), s) == Some(MapVal(m))
  {
    EntriesConvert(y, e, entries);
    hide AllEntriesConvert, EntriesConvertTo, DecodeEntries;
    assert EntriesIn(Mapping(entries)) == Some(entries);
    if AllEntriesConvert(y, e, entries) {
      assert Decode(y, MapTy(e), s) == Some(MapVal(DecodeEntries(y, e, entries).value));
    }
  }

  /** Everything else: a text that does not load, and a sequence where a mapping is expected, or the other
      way round, are failures; a null or scalar node is an empty container; and a scalar is converted from
      its text, whatever node that is. */
  lemma {:induction false} OtherConversions(y: Library, e: Ty, kind: Kind, s: string)
    ensures y.load(s).None? ==>
              Decode(y, SeqTy(e), s).None? && Decode(y, SetTy(e), s).None? && Decode(y, MapTy(e), s).None?
    ensures y.load(s).Some? && y.load(s).value.Sequence? ==> Decode(y, MapTy(e), s).None?
    ensures y.load(s).Some? && y.load(s).value.Mapping? ==>
              Decode(y, SeqTy(e), s).None? && Decode(y, SetTy(e), s).None?
    ensures y.load(s).Some? && (y.load(s).value.Null? || y.load(s).value.Scalar?) ==>
              && Decode(y, SeqTy(e), s) == Some(SeqVal([])) && Decode(y, SetTy(e), s) == Some(SetVal({}))
              && Decode(y, MapTy(e), s) == Some(MapVal(map[]))
    ensures forall v :: Decode(y, ScalarTy(kind), s) == Some(v) <==> v.ScalarVal? && y.ofText(kind, s) == Some(v.x)
  {
    assert SetOf([]) == {};
    assert DecodeItems(y, e, []) == Some([]) && DecodeEntries(y, e, []) == Some(map[]);
  }

  /** The scalar values of each type. */
  lemma ScalarsOf(v: Val, kind: Kind)
    ensures Typed(v, ScalarTy(kind)) <==>
            v.ScalarVal? &&
            match kind
            case IntKind => v.x.IntScalar?
            case FloatKind => v.x.FloatScalar?
            case BoolKind => v.x.BoolScalar?
            case StringKind => v.x.StringScalar?
  {
    match kind {
      case IntKind =>
      case FloatKind =>
      case BoolKind =>
      case StringKind =>
    }
  }

  // ---------- value to text ----------

  /** The text of this element loads as this node. */
  ghost predicate LoadsAs(y: Library, w: Val, n: Node)
    requires Iterates(y)
  {
    Encode(y, w).Some? && y.load(Encode(y, w).value) == Some(n)
  }

  ghost predicate AllLoad(y: Library, items: seq<Val>)
    requires Iterates(y)
  {
    forall i | 0 <= i < |items| :: Encode(y, items[i]).Some? && y.load(Encode(y, items[i]).value).Some?
  }

  lemma {:induction false} NodesLoad(y: Library, v: Val, items: seq<Val>)
    requires Iterates(y) && forall i | 0 <= i < |items| :: items[i] < v
    ensures NodesOf(y, v, items).Some? <==> AllLoad(y, items)
    ensures NodesOf(y, v, items).Some? ==>
              var ns := NodesOf(y, v, items).value;
              |ns| == |items| && forall i | 0 <= i < |ns| :: LoadsAs(y, items[i], ns[i])
    decreases |items|
  {
    hide Iterates, Encode;
    if items == [] {
      NoItems(y, v, ScalarTy(IntKind));
    } else {
      var before, last := items[..|items| - 1], items[|items| - 1];
      NodesLoad(y, v, before);
      assert items == before + [last];
      assert forall i | 0 <= i < |before| :: before[i] == items[i];
      NodesOfSnoc(y, v, before, last);
      assert AllLoad(y, items) ==> Encode(y, last).Some? && y.load(Encode(y, last).value).Some?;
    }
  }

  /** A vector or a list becomes the text of the sequence of its elements' nodes, in order, and of the null
      node if it is empty; this fails exactly if the text of some element does not load. */
  lemma {:induction false} SequenceEncodes(y: Library, items: seq<Val>)
    requires Iterates(y)
    ensures Encode(y, SeqVal(items)).Some? <==> AllLoad(y, items)
    ensures AllLoad(y, items) ==>
              exists ns :: |ns| == |items| && (forall i | 0 <= i < |ns| :: LoadsAs(y, items[i], ns[i]))
                           && Encode(y, SeqVal(items)) == Some(y.emit(if items == [] then Null else Sequence(ns)))
  {
    NodesLoad(y, SeqVal(items), items);
    hide Iterates, AllLoad, LoadsAs, NodesOf;
    if AllLoad(y, items) {
      var ns := NodesOf(y, SeqVal(items), items).value;
      assert Encode(y, SeqVal(items)) == Some(y.emit(SeqNode(ns)));
    }
  }

  /** The same for a set, in the order it is iterated in. */
  lemma {:induction false} SetEncodes(y: Library, members: set<Val>)
    requires Iterates(y)
    ensures Encode(y, SetVal(members)) == Encode(y, SeqVal(y.setOrder(members)))
  {
    var order := y.setOrder(members);
    InOrder(y, members);
    assert forall i | 0 <= i < |order| :: order[i] in members;
    assert forall i | 0 <= i < |order| :: order[i] in order;
    SameNodes(y, SetVal(members), SeqVal(order), order);
  }

  /** Nodes do not depend on the container they are for. */
  lemma {:induction false} SameNodes(y: Library, v: Val, w: Val, items: seq<Val>)
    requires Iterates(y) && forall i | 0 <= i < |items| :: items[i] < v && items[i] < w
    ensures NodesOf(y, v, items) == NodesOf(y, w, items)
    decreases |items|
  {
    hide Iterates, Encode;
    if items == [] {
      NoItems(y, v, ScalarTy(IntKind));
      NoItems(y, w, ScalarTy(IntKind));
    } else {
      var before, last := items[..|items| - 1], items[|items| - 1];
      assert items == before + [last];
      SameNodes(y, v, w, before);
      NodesOfSnoc(y, v, before, last);
      NodesOfSnoc(y, w, before, last);
    }
  }

  ghost predicate AllValuesLoad(y: Library, m: map<string, Val>)
    requires Iterates(y)
  {
    forall k | k in m :: Encode(y, m[k]).Some? && y.load(Encode(y, m[k]).value).Some?
  }

  ghost predicate EntryLoads(y: Library, m: map<string, Val>, key: string, entry: Entry)
    requires Iterates(y)
  {
    entry.key == key && key in m && LoadsAs(y, m[key], entry.value)
  }

  lemma {:induction false} EntriesLoad(y: Library, v: Val, keys: seq<string>)
    requires Iterates(y) && v.MapVal? && forall i | 0 <= i < |keys| :: keys[i] in v.entries
    ensures EntriesOf(y, v, keys).Some? <==>
            forall i | 0 <= i < |keys| ::
              Encode(y, v.entries[keys[i]]).Some? && y.load(Encode(y, v.entries[keys[i]]).value).Some?
    ensures EntriesOf(y, v, keys).Some? ==>
              var es := EntriesOf(y, v, keys).value;
              |es| == |keys| && forall i | 0 <= i < |es| :: EntryLoads(y, v.entries, keys[i], es[i])
    decreases |keys|
  {
    hide Iterates, Encode;
    if keys == [] {
      NoEntries(y, v, ScalarTy(IntKind));
    } else {
      var before, last := keys[..|keys| - 1], keys[|keys| - 1];
      EntriesLoad(y, v, before);
      assert keys == before + [last];
      assert forall i | 0 <= i < |before| :: before[i] == keys[i];
      EntriesOfSnoc(y, v, before, last);
    }
  }

  /** A map becomes the text of the mapping of its entries, in the order of its keys' iteration, and of the
      null node if it is empty; this fails exactly if the text of some value does not load. */
  lemma {:induction false} MapEncodes(y: Library, m: map<string, Val>)
    requires Iterates(y)
    ensures Encode(y, MapVal(m)).Some? <==> AllValuesLoad(y, m)
    ensures AllValuesLoad(y, m) ==>
              var keys := y.keyOrder(m.Keys);
              exists es :: |es| == |keys| && (forall i | 0 <= i < |es| :: EntryLoads(y, m, keys[i], es[i]))
                           && Encode(y, MapVal(m)) == Some(y.emit(if m == map[] then Null else Mapping(es)))
  {
    var keys, v := y.keyOrder(m.Keys), MapVal(m);
    KeysInOrder(y, m.Keys);
    EntriesLoad(y, v, keys);
    hide Iterates, EntryLoads, EntriesOf;
    assert forall k | k in m :: k in keys;
    if AllValuesLoad(y, m) {
      var es := EntriesOf(y, v, keys).value;
      assert Encode(y, v) == Some(y.emit(MapNode(es)));
      assert keys == [] <==> m == map[];
    }
  }
}
