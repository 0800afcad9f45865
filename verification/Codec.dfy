/** Conversions between nested containers and YAML text. The YAML library and the conversions of
    scalars are parameters; what the round trip of one value needs of them is `Survives`. */
module Codec {
  import opened Wrappers
  import opened Yaml
  import opened ConfigVars

  datatype Kind = IntKind | FloatKind | BoolKind | StringKind

  /** A float is known by its 64 bits. NaN and the negative zero are left out: `==` does not compare them
      by their bits. */
  datatype Scalar = IntScalar(i: int) | FloatScalar(bits: bv64) | BoolScalar(b: bool) | StringScalar(t: string)

  function KindOf(x: Scalar): Kind {
    match x
    case IntScalar(_) => IntKind
    case FloatScalar(_) => FloatKind
    case BoolScalar(_) => BoolKind
    case StringScalar(_) => StringKind
  }

  /** C++ value types: `SeqTy` is a vector or a list, `SetTy` and `MapTy` the ordered or the unordered
      container. */
  datatype Ty = ScalarTy(kind: Kind) | SeqTy(elem: Ty) | SetTy(elem: Ty) | MapTy(elem: Ty)

  datatype Val =
    | ScalarVal(x: Scalar)
    | SeqVal(items: seq<Val>)
    | SetVal(members: set<Val>)
    | MapVal(entries: map<string, Val>)

  ghost predicate Typed(v: Val, ty: Ty) {
    match ty
    case ScalarTy(kind) => v.ScalarVal? && KindOf(v.x) == kind
    case SeqTy(e) => v.SeqVal? && forall w | w in v.items :: Typed(w, e)
    case SetTy(e) => v.SetVal? && forall w | w in v.members :: Typed(w, e)
    case MapTy(e) => v.MapVal? && forall k | k in v.entries :: Typed(v.entries[k], e)
  }

  /** `load` and `emit` read and print YAML, `toText` and `ofText` convert scalars, and the orders say
      how a set and the keys of a map are iterated. */
  datatype Library = Library(
    load: string -> Option<Node>,
    emit: Node -> string,
    toText: Scalar -> string,
    ofText: (Kind, string) -> Option<Scalar>,
    setOrder: set<Val> -> seq<Val>,
    keyOrder: set<string> -> seq<string>)

  ghost predicate Enumerates<T>(order: seq<T>, s: set<T>) {
    && (forall i | 0 <= i < |order| :: order[i] in s)
    && (forall w | w in s :: w in order)
    && (forall i, j | 0 <= i < j < |order| :: order[i] != order[j])
  }

  /** Iterating over a container meets every element once. */
  ghost predicate Iterates(y: Library) {
    && (forall s :: Enumerates(y.setOrder(s), s))
    && (forall s :: Enumerates(y.keyOrder(s), s))
  }

  /** An empty container stays the null node it was created as. */
  function SeqNode(items: seq<Node>): Node {
    if items == [] then Null else Sequence(items)
  }

  function MapNode(entries: seq<Entry>): Node {
    if entries == [] then Null else Mapping(entries)
  }

  // ---------- value to text ----------

  /** The element nodes are loaded from the text of the elements. None stands for an exception: a text
      that does not load. */
  ghost function Encode(y: Library, v: Val): Option<string>
    requires Iterates(y)
    decreases v, 0
  {
    match v
    case ScalarVal(x) => Some(y.toText(x))
    case SeqVal(items) => EmittedSeq(y, NodesOf(y, v, items))
    case SetVal(members) =>
      assert Enumerates(y.setOrder(members), members);
      EmittedSeq(y, NodesOf(y, v, y.setOrder(members)))
    case MapVal(entries) =>
      assert Enumerates(y.keyOrder(entries.Keys), entries.Keys);
      EmittedMap(y, EntriesOf(y, v, y.keyOrder(entries.Keys)))
  }

  function EmittedSeq(y: Library, nodes: Option<seq<Node>>): Option<string> {
    match nodes
    case None => None
    case Some(ns) => Some(y.emit(SeqNode(ns)))
  }

  function EmittedMap(y: Library, entries: Option<seq<Entry>>): Option<string> {
    match entries
    case None => None
    case Some(es) => Some(y.emit(MapNode(es)))
  }

  /** The node a container holds for an element of this text. */
  function LoadText(y: Library, text: Option<string>): Option<Node> {
    match text
    case None => None
    case Some(t) => y.load(t)
  }

  ghost function NodesOf(y: Library, v: Val, items: seq<Val>): Option<seq<Node>>
    requires Iterates(y) && forall i | 0 <= i < |items| :: items[i] < v
    decreases v, 0, |items|
  {
    if items == [] then Some([])
    else
      assert forall i | 0 <= i < |items| - 1 :: items[..|items| - 1][i] == items[i];
      var before := NodesOf(y, v, items[..|items| - 1]);
      var last := LoadText(y, Encode(y, Last(items)));
      if before.None? || last.None? then None else Some(before.value + [last.value])
  }

  ghost function EntriesOf(y: Library, v: Val, keys: seq<string>): Option<seq<Entry>>
    requires Iterates(y) && v.MapVal? && forall i | 0 <= i < |keys| :: keys[i] in v.entries
    decreases v, 0, |keys|
  {
    if keys == [] then Some([])
    else
      assert forall i | 0 <= i < |keys| - 1 :: keys[..|keys| - 1][i] == keys[i];
      var before := EntriesOf(y, v, keys[..|keys| - 1]);
      var last := LoadText(y, Encode(y, v.entries[Last(keys)]));
      if before.None? || last.None? then None else Some(before.value + [Entry(Last(keys), last.value)])
  }

  // ---------- text to value ----------

  /** The nodes a sequence conversion iterates over: none for a null or a scalar node. Indexing a
      mapping is not modelled. */
  function ItemsOf(n: Node): Option<seq<Node>> {
    match n
    case Sequence(items) => Some(items)
    case Mapping(_) => None
    case _ => Some([])
  }

  /** The entries a map conversion iterates over; the items of a sequence have no keys, which throws. */
  function EntriesIn(n: Node): Option<seq<Entry>> {
    match n
    case Mapping(entries) => Some(entries)
    case Sequence(_) => None
    case _ => Some([])
  }

  function SetOf(items: seq<Val>): set<Val> {
    set w | w in items
  }

  /** None stands for an exception. The element texts are emitted from the element nodes. */
  function Decode(y: Library, ty: Ty, s: string): Option<Val>
    decreases ty, 0
  {
    match ty
    case ScalarTy(kind) => (match y.ofText(kind, s) case None => None case Some(x) => Some(ScalarVal(x)))
    case SeqTy(e) => (match DecodeAll(y, e, s) case None => None case Some(items) => Some(SeqVal(items)))
    case SetTy(e) => (match DecodeAll(y, e, s) case None => None case Some(items) => Some(SetVal(SetOf(items))))
    case MapTy(e) =>
      var loaded := y.load(s);
      if loaded.None? || EntriesIn(loaded.value).None? then None
      else match DecodeEntries(y, e, EntriesIn(loaded.value).value)
        case None => None
        case Some(entries) => Some(MapVal(entries))
  }

  function DecodeAll(y: Library, e: Ty, s: string): Option<seq<Val>>
    decreases e, 2
  {
    var loaded := y.load(s);
    if loaded.None? || ItemsOf(loaded.value).None? then None else DecodeItems(y, e, ItemsOf(loaded.value).value)
  }

  function DecodeItems(y: Library, e: Ty, nodes: seq<Node>): Option<seq<Val>>
    decreases e, 1, |nodes|
  {
    if nodes == [] then Some([]) else
    var before := DecodeItems(y, e, nodes[..|nodes| - 1]);
    var last := Decode(y, e, y.emit(Last(nodes)));
    if before.None? || last.None? then None else Some(before.value + [last.value])
  }

  /** `map.insert`: the first of two equal keys wins. */
  function InsertEntry(m: map<string, Val>, key: string, v: Val): map<string, Val> {
    if key in m then m else m[key := v]
  }

  function DecodeEntries(y: Library, e: Ty, entries: seq<Entry>): Option<map<string, Val>>
    decreases e, 1, |entries|
  {
    if entries == [] then Some(map[]) else
    var before := DecodeEntries(y, e, entries[..|entries| - 1]);
    var last := Decode(y, e, y.emit(Last(entries).value));
    if before.None? || last.None? then None else Some(InsertEntry(before.value, Last(entries).key, last.value))
  }

  // ---------- round trip ----------

  /** The scalar is converted back from its own text, and from the text that its node is emitted as. */
  predicate ScalarSurvives(y: Library, x: Scalar) {
    && y.ofText(KindOf(x), y.toText(x)) == Some(x)
    && y.load(y.toText(x)).Some? && y.ofText(KindOf(x), y.emit(y.load(y.toText(x)).value)) == Some(x)
  }

  predicate LoadsBack(y: Library, n: Node) {
    y.load(y.emit(n)) == Some(n)
  }

  /** What is asked of the library for one value: the scalars in it survive, and loading undoes emitting
      on the nodes that its containers are turned into. */
  ghost predicate Survives(y: Library, v: Val)
    requires Iterates(y)
    decreases v
  {
    match v
    case ScalarVal(x) => ScalarSurvives(y, x)
    case SeqVal(items) =>
      && (forall w | w in items :: Survives(y, w))
      && var nodes := NodesOf(y, v, items); nodes.Some? ==> LoadsBack(y, SeqNode(nodes.value))
    case SetVal(members) =>
      assert Enumerates(y.setOrder(members), members);
      && (forall w | w in members :: Survives(y, w))
      && var nodes := NodesOf(y, v, y.setOrder(members)); nodes.Some? ==> LoadsBack(y, SeqNode(nodes.value))
    case MapVal(entries) =>
      assert Enumerates(y.keyOrder(entries.Keys), entries.Keys);
      && (forall k | k in entries :: Survives(y, entries[k]))
      && var es := EntriesOf(y, v, y.keyOrder(entries.Keys)); es.Some? ==> LoadsBack(y, MapNode(es.value))
  }

  lemma OrderIsSet(order: seq<Val>, s: set<Val>)
    requires Enumerates(order, s)
    ensures SetOf(order) == s
  {
  }

  /** `s` decodes to `v`, and so does the text that its node is emitted as. */
  ghost predicate Decodes(y: Library, ty: Ty, s: string, v: Val) {
    && y.load(s).Some?
    && Decode(y, ty, s) == Some(v)
    && Decode(y, ty, y.emit(y.load(s).value)) == Some(v)
  }

  lemma ScalarDecodes(y: Library, x: Scalar)
    requires ScalarSurvives(y, x)
    ensures Decodes(y, ScalarTy(KindOf(x)), y.toText(x), ScalarVal(x))
  {
  }

  lemma {:induction false} SequenceDecodes(y: Library, e: Ty, ns: seq<Node>, items: seq<Val>)
    requires LoadsBack(y, SeqNode(ns)) && DecodeItems(y, e, ns) == Some(items)
    ensures Decodes(y, SeqTy(e), y.emit(SeqNode(ns)), SeqVal(items))
    ensures Decodes(y, SetTy(e), y.emit(SeqNode(ns)), SetVal(SetOf(items)))
  {
    var s := y.emit(SeqNode(ns));
    assert ItemsOf(SeqNode(ns)) == Some(ns);
    hide DecodeItems, SeqNode, SetOf;
    assert DecodeAll(y, e, s) == Some(items);
  }

  lemma {:induction false} MappingDecodes(y: Library, e: Ty, es: seq<Entry>, m: map<string, Val>)
    requires LoadsBack(y, MapNode(es)) && DecodeEntries(y, e, es) == Some(m)
    ensures Decodes(y, MapTy(e), y.emit(MapNode(es)), MapVal(m))
  {
    assert EntriesIn(MapNode(es)) == Some(es);
    hide DecodeEntries, MapNode;
  }

  /** Decoding undoes encoding at every nesting, both of the text itself and of the text that the
      value's node is emitted as inside a larger container. */
  lemma {:induction false} RoundTrip(y: Library, v: Val, ty: Ty)
    requires Iterates(y) && Survives(y, v) && Typed(v, ty)
    ensures Encode(y, v).Some? && Decodes(y, ty, Encode(y, v).value, v)
    decreases v, 1
  {
    hide Iterates, Enumerates, Decodes, SeqNode, MapNode, NodesOf, EntriesOf, SetOf, Part, LoadsBack;
    match v {
      case ScalarVal(x) =>
        ScalarDecodes(y, x);
      case SeqVal(items) =>
        ItemsRoundTrip(y, v, items, ty.elem);
        SequenceDecodes(y, ty.elem, NodesOf(y, v, items).value, items);
      case SetVal(members) =>
        var order := y.setOrder(members);
        InOrder(y, members);
        ItemsRoundTrip(y, v, order, ty.elem);
        SequenceDecodes(y, ty.elem, NodesOf(y, v, order).value, order);
        OrderIsSet(order, members);
      case MapVal(entries) =>
        var order := y.keyOrder(entries.Keys);
        KeysInOrder(y, entries.Keys);
        EntriesRoundTrip(y, v, order, ty.elem);
        MappingDecodes(y, ty.elem, EntriesOf(y, v, order).value, Part(entries, order));
        WholePart(entries, order);
    }
  }

  lemma WholePart(m: map<string, Val>, order: seq<string>)
    requires (forall i | 0 <= i < |order| :: order[i] in m) && forall k | k in m :: k in order
    ensures Part(m, order) == m
  {
  }

  lemma InOrder(y: Library, members: set<Val>)
    requires Iterates(y)
    ensures Enumerates(y.setOrder(members), members)
    ensures forall i | 0 <= i < |y.setOrder(members)| :: y.setOrder(members)[i] in members
  {
  }

  lemma KeysInOrder(y: Library, keys: set<string>)
    requires Iterates(y)
    ensures forall i | 0 <= i < |y.keyOrder(keys)| :: y.keyOrder(keys)[i] in keys
    ensures forall k | k in keys :: k in y.keyOrder(keys)
    ensures forall i, j | 0 <= i < j < |y.keyOrder(keys)| :: y.keyOrder(keys)[i] != y.keyOrder(keys)[j]
  {
    assert Enumerates(y.keyOrder(keys), keys);
  }

  lemma {:induction false} NodesOfSnoc(y: Library, v: Val, before: seq<Val>, last: Val)
    requires Iterates(y) && last < v && forall i | 0 <= i < |before| :: before[i] < v
    ensures var nodes, node := NodesOf(y, v, before), LoadText(y, Encode(y, last));
            NodesOf(y, v, before + [last]) ==
            if nodes.None? || node.None? then None else Some(nodes.value + [node.value])
  {
    hide Iterates, Encode;
    assert (before + [last])[..|before|] == before;
  }

  lemma {:induction false} DecodeItemsSnoc(y: Library, e: Ty, before: seq<Node>, last: Node)
    requires DecodeItems(y, e, before).Some? && Decode(y, e, y.emit(last)).Some?
    ensures DecodeItems(y, e, before + [last])
            == Some(DecodeItems(y, e, before).value + [Decode(y, e, y.emit(last)).value])
  {
    hide Decode;
    assert (before + [last])[..|before|] == before;
  }

  lemma {:induction false} ItemsRoundTrip(y: Library, v: Val, items: seq<Val>, e: Ty)
    requires Iterates(y)
    requires forall i | 0 <= i < |items| :: items[i] < v && Typed(items[i], e) && Survives(y, items[i])
    ensures NodesOf(y, v, items).Some? && DecodeItems(y, e, NodesOf(y, v, items).value) == Some(items)
    decreases v, 0, |items|
  {
    hide Iterates, Typed, Encode, Decode, NodesOf, DecodeItems, Survives;
    if items == [] {
      NoItems(y, v, e);
    } else {
      var before, last := items[..|items| - 1], Last(items);
      assert items == before + [last];
      assert forall i | 0 <= i < |before| :: before[i] == items[i];
      ItemsRoundTrip(y, v, before, e);
      RoundTrip(y, last, e);
      NodesOfSnoc(y, v, before, last);
      DecodeItemsSnoc(y, e, NodesOf(y, v, before).value, LoadText(y, Encode(y, last)).value);
    }
  }

  lemma {:induction false} NoItems(y: Library, v: Val, e: Ty)
    requires Iterates(y)
    ensures NodesOf(y, v, []) == Some([]) && DecodeItems(y, e, []) == Some([])
  {
  }

  /** The part of a map under some of its keys. */
  ghost function Part(m: map<string, Val>, keys: seq<string>): map<string, Val>
    requires forall i | 0 <= i < |keys| :: keys[i] in m
  {
    map k | k in keys :: m[k]
  }

  lemma PartGrows(m: map<string, Val>, before: seq<string>, key: string)
    requires (forall i | 0 <= i < |before| :: before[i] in m && before[i] != key) && key in m
    ensures InsertEntry(Part(m, before), key, m[key]) == Part(m, before + [key])
  {
  }

  lemma {:induction false} EntriesOfSnoc(y: Library, v: Val, before: seq<string>, key: string)
    requires Iterates(y) && v.MapVal? && key in v.entries && forall i | 0 <= i < |before| :: before[i] in v.entries
    ensures var es, node := EntriesOf(y, v, before), LoadText(y, Encode(y, v.entries[key]));
            EntriesOf(y, v, before + [key]) ==
            if es.None? || node.None? then None else Some(es.value + [Entry(key, node.value)])
  {
    hide Iterates, Encode;
    assert (before + [key])[..|before|] == before;
  }

  lemma {:induction false} DecodeEntriesSnoc(y: Library, e: Ty, before: seq<Entry>, entry: Entry)
    requires DecodeEntries(y, e, before).Some? && Decode(y, e, y.emit(entry.value)).Some?
    ensures DecodeEntries(y, e, before + [entry])
            == Some(InsertEntry(DecodeEntries(y, e, before).value, entry.key, Decode(y, e, y.emit(entry.value)).value))
  {
    hide Decode, InsertEntry;
    assert (before + [entry])[..|before|] == before;
  }

  lemma {:induction false} EntriesRoundTrip(y: Library, v: Val, keys: seq<string>, e: Ty)
    requires Iterates(y) && v.MapVal?
    requires forall i | 0 <= i < |keys| ::
               keys[i] in v.entries && Typed(v.entries[keys[i]], e) && Survives(y, v.entries[keys[i]])
    requires forall i, j | 0 <= i < j < |keys| :: keys[i] != keys[j]
    ensures EntriesOf(y, v, keys).Some?
    ensures DecodeEntries(y, e, EntriesOf(y, v, keys).value) == Some(Part(v.entries, keys))
    decreases v, 0, |keys|
  {
    hide Iterates, Typed, Encode, Decode, EntriesOf, DecodeEntries, InsertEntry, Part, Survives;
    if keys == [] {
      NoEntries(y, v, e);
    } else {
      var before, last := keys[..|keys| - 1], Last(keys);
      assert keys == before + [last];
      assert forall i | 0 <= i < |before| :: before[i] == keys[i];
      EntriesRoundTrip(y, v, before, e);
      RoundTrip(y, v.entries[last], e);
      EntriesOfSnoc(y, v, before, last);
      var node := LoadText(y, Encode(y, v.entries[last])).value;
      DecodeEntriesSnoc(y, e, EntriesOf(y, v, before).value, Entry(last, node));
      PartGrows(v.entries, before, last);
    }
  }

  lemma {:induction false} NoEntries(y: Library, v: Val, e: Ty)
    requires Iterates(y) && v.MapVal?
    ensures EntriesOf(y, v, []) == Some([]) && DecodeEntries(y, e, []) == Some(Part(v.entries, []))
  {
  }

  /** A variable that is given its own text keeps its value and calls no listener. */
  lemma {:induction false} ReloadIsQuiet(y: Library, s: VarState<Val>, ty: Ty)
    requires Iterates(y) && Survives(y, s.val) && Typed(s.val, ty)
    ensures Encode(y, s.val).Some? && Decode(y, ty, Encode(y, s.val).value).Some?
    ensures SetTo(s, Decode(y, ty, Encode(y, s.val).value).value) == s
  {
    RoundTrip(y, s.val, ty);
  }

  // ---------- a library and a nested value that meet the hypothesis ----------

  ghost function AnyOrder<T>(s: set<T>): (order: seq<T>)
    ensures Enumerates(order, s)
  {
    if s == {} then [] else
    var w :| w in s;
    var rest := AnyOrder(s - {w});
    assert Enumerates([w] + rest, s);
    [w] + rest
  }

  const NODE_A := Node.Scalar("a")
  const NODE_SET := Sequence([NODE_A])
  const NODE_SEQ := Sequence([Null, NODE_SET])
  const NODE_MAP := Mapping([Entry("k", NODE_SEQ)])

  function SampleEmit(n: Node): string {
    if n.Scalar? then n.text
    else if n == NODE_SET then "[a]"
    else if n == NODE_SEQ then "[~, [a]]"
    else if n == NODE_MAP then "k: [~, [a]]"
    else "~"
  }

  function SampleLoad(s: string): Option<Node> {
    if s == "~" then Some(Null)
    else if s == "[a]" then Some(NODE_SET)
    else if s == "[~, [a]]" then Some(NODE_SEQ)
    else if s == "k: [~, [a]]" then Some(NODE_MAP)
    else Some(Node.Scalar(s))
  }

  /** Strings are their own text. */
  ghost function SampleLibrary(): (y: Library)
    ensures Iterates(y)
  {
    Library(SampleLoad, SampleEmit,
            (x: Scalar) => if x.StringScalar? then x.t else "0",
            (kind: Kind, s: string) => if kind == StringKind then Some(StringScalar(s)) else None,
            (s: set<Val>) => AnyOrder(s), (s: set<string>) => AnyOrder(s))
  }

  const SET_A := SetVal({ScalarVal(StringScalar("a"))})
  const SEQ_OF_SETS := SeqVal([SetVal({}), SET_A])
  const MAP_OF_SEQ := MapVal(map["k" := SEQ_OF_SETS])

  lemma OrderOfOne<T>(w: T)
    ensures AnyOrder({w}) == [w]
  {
    assert {w} - {w} == {};
  }

  lemma {:induction false} NodesAre(y: Library, v: Val, items: seq<Val>, nodes: seq<Node>)
    requires Iterates(y) && |nodes| == |items|
    requires forall i | 0 <= i < |items| :: items[i] < v && LoadText(y, Encode(y, items[i])) == Some(nodes[i])
    ensures NodesOf(y, v, items) == Some(nodes)
    decreases |items|
  {
    hide Iterates, Encode, LoadText;
    if items == [] {
      NoItems(y, v, ScalarTy(IntKind));
    } else {
      var n := |items| - 1;
      assert items == items[..n] + [items[n]] && nodes == nodes[..n] + [nodes[n]];
      NodesAre(y, v, items[..n], nodes[..n]);
      NodesOfSnoc(y, v, items[..n], items[n]);
    }
  }

  /** A vector survives if its elements do and the node of their nodes loads back. */
  lemma {:induction false} SeqSurvives(y: Library, items: seq<Val>, nodes: seq<Node>)
    requires Iterates(y) && |nodes| == |items| && LoadsBack(y, SeqNode(nodes))
    requires forall i | 0 <= i < |items| :: Survives(y, items[i]) && LoadText(y, Encode(y, items[i])) == Some(nodes[i])
    ensures Survives(y, SeqVal(items)) && Encode(y, SeqVal(items)) == Some(y.emit(SeqNode(nodes)))
  {
    NodesAre(y, SeqVal(items), items, nodes);
    hide Iterates, LoadText, LoadsBack, SeqNode, NodesOf;
  }

  lemma {:induction false} SetSurvives(y: Library, members: set<Val>, nodes: seq<Node>)
    requires Iterates(y) && |nodes| == |y.setOrder(members)| && LoadsBack(y, SeqNode(nodes))
    requires forall i | 0 <= i < |nodes| ::
               Survives(y, y.setOrder(members)[i]) && LoadText(y, Encode(y, y.setOrder(members)[i])) == Some(nodes[i])
    ensures Survives(y, SetVal(members)) && Encode(y, SetVal(members)) == Some(y.emit(SeqNode(nodes)))
  {
    InOrder(y, members);
    NodesAre(y, SetVal(members), y.setOrder(members), nodes);
    assert Enumerates(y.setOrder(members), members);
    hide Iterates, LoadText, LoadsBack, SeqNode, NodesOf;
  }

  lemma {:induction false} MapSurvives(y: Library, key: string, w: Val, node: Node)
    requires Iterates(y) && y.keyOrder({key}) == [key] && LoadsBack(y, MapNode([Entry(key, node)]))
    requires Survives(y, w) && LoadText(y, Encode(y, w)) == Some(node)
    ensures Survives(y, MapVal(map[key := w]))
  {
    var v := MapVal(map[key := w]);
    EntriesOfSnoc(y, v, [], key);
    NoEntries(y, v, ScalarTy(IntKind));
    assert [] + [key] == [key] && [] + [Entry(key, node)] == [Entry(key, node)];
    assert v.entries.Keys == {key};
    hide Iterates, LoadText, LoadsBack, MapNode, EntriesOf;
  }

  /** The hypothesis can be met: a map of vectors of sets, the empty set among them, and a library for
      which it survives. */
  lemma {:induction false} NestedSurvives()
    ensures Survives(SampleLibrary(), MAP_OF_SEQ)
    ensures Typed(MAP_OF_SEQ, MapTy(SeqTy(SetTy(ScalarTy(StringKind)))))
  {
    var y := SampleLibrary();
    var a := ScalarVal(StringScalar("a"));
    NestedIsTyped();
    hide Iterates, NodesOf, EntriesOf, AnyOrder, Typed;
    assert Survives(y, a) && Encode(y, a) == Some("a");
    OrderOfOne(a);
    SetSurvives(y, {a}, [NODE_A]);
    NoneInOrder();
    SetSurvives(y, {}, []);
    SeqSurvives(y, [SetVal({}), SET_A], [Null, NODE_SET]);
    OrderOfOne("k");
    MapSurvives(y, "k", SEQ_OF_SETS, NODE_SEQ);
  }

  lemma NestedIsTyped()
    ensures Typed(MAP_OF_SEQ, MapTy(SeqTy(SetTy(ScalarTy(StringKind)))))
  {
    assert Typed(SET_A, SetTy(ScalarTy(StringKind))) && Typed(SetVal({}), SetTy(ScalarTy(StringKind)));
    assert Typed(SEQ_OF_SETS, SeqTy(SetTy(ScalarTy(StringKind))));
  }

  lemma NoneInOrder()
    ensures AnyOrder<Val>({}) == []
  {
  }
}
