/** Which nodes the listing lists, in what order, and how a listed path leads back to its node. */
module YamlPaths {
  import opened Wrappers
  import opened Yaml

  // ---------- all nodes of a tree, in preorder ----------

  /** A node of a tree: which entry to take at each level, the keys met on the way, and the node. */
  datatype Visit = Visit(pos: seq<nat>, keys: seq<string>, node: Node)

  function Under(k: nat, key: string, vs: seq<Visit>): seq<Visit> {
    seq(|vs|, i requires 0 <= i < |vs| => Visit([k] + vs[i].pos, [key] + vs[i].keys, vs[i].node))
  }

  function Visits(node: Node): seq<Visit>
    decreases node, 1
  {
    [Visit([], [], node)] + if node.Mapping? then EntryVisits(node, 0) else []
  }

  /** The nodes below the entries from number `k` on. */
  function EntryVisits(node: Node, k: nat): seq<Visit>
    requires node.Mapping? && k <= |node.entries|
    decreases node, 0, |node.entries| - k
  {
    if k == |node.entries| then []
    else Under(k, node.entries[k].key, Visits(node.entries[k].value)) + EntryVisits(node, k + 1)
  }

  /** Following entry numbers from `node`. */
  function NodeAt(node: Node, pos: seq<nat>): Option<Node> {
    if pos == [] then Some(node)
    else if node.Mapping? && pos[0] < |node.entries| then NodeAt(node.entries[pos[0]].value, pos[1..])
    else None
  }

  function KeysAt(node: Node, pos: seq<nat>): seq<string>
    requires NodeAt(node, pos).Some?
  {
    if pos == [] then [] else [node.entries[pos[0]].key] + KeysAt(node.entries[pos[0]].value, pos[1..])
  }

  /** Preorder of positions: a node before what is below it, and entries in their order. */
  predicate Before(a: seq<nat>, b: seq<nat>) {
    b != [] && (a == [] || a[0] < b[0] || (a[0] == b[0] && Before(a[1..], b[1..])))
  }

  predicate Genuine(node: Node, v: Visit) {
    NodeAt(node, v.pos) == Some(v.node) && KeysAt(node, v.pos) == v.keys
  }

  ghost predicate InPreorder(vs: seq<Visit>) {
    forall i, j | 0 <= i < j < |vs| :: Before(vs[i].pos, vs[j].pos)
  }

  ghost predicate AllGenuine(node: Node, vs: seq<Visit>) {
    forall i | 0 <= i < |vs| :: Genuine(node, vs[i])
  }

  ghost predicate Has(vs: seq<Visit>, pos: seq<nat>) {
    exists i | 0 <= i < |vs| :: vs[i].pos == pos
  }

  lemma {:induction false} GenuineUnder(node: Node, k: nat, v: Visit)
    requires node.Mapping? && k < |node.entries| && Genuine(node.entries[k].value, v)
    ensures Genuine(node, Visit([k] + v.pos, [node.entries[k].key] + v.keys, v.node))
  {
    assert ([k] + v.pos)[1..] == v.pos;
  }

  lemma {:induction false} BeforeUnder(k: nat, a: seq<nat>, b: seq<nat>)
    ensures Before([k] + a, [k] + b) <==> Before(a, b)
  {
    assert ([k] + a)[1..] == a && ([k] + b)[1..] == b;
  }

  /** `Visits` enumerates exactly the nodes of the tree, each once, in preorder. */
  lemma {:induction false} VisitsEnumerate(node: Node, pos: seq<nat>)
    ensures AllGenuine(node, Visits(node)) && InPreorder(Visits(node))
    ensures Has(Visits(node), pos) <==> NodeAt(node, pos).Some?
    decreases node, 1
  {
    hide Genuine, EntryVisits, Before;
    assert Genuine(node, Visit([], [], node)) by { GenuineRoot(node); }
    if node.Mapping? {
      EntryVisitsEnumerate(node, 0, pos);
      var vs := EntryVisits(node, 0);
      assert Visits(node) == [Visit([], [], node)] + vs;
      forall j | 0 <= j < |vs| ensures Before([], vs[j].pos) {
        EmptyBefore(vs[j].pos);
      }
      if i :| 0 <= i < |vs| && vs[i].pos == pos {
        assert Visits(node)[i + 1].pos == pos;
      }
    }
    if pos == [] {
      assert Visits(node)[0].pos == pos;
    }
  }

  lemma {:induction false} GenuineRoot(node: Node)
    ensures Genuine(node, Visit([], [], node))
  {
  }

  lemma EmptyBefore(b: seq<nat>)
    ensures b != [] ==> Before([], b)
  {
  }

  lemma LowerFirst(a: seq<nat>, b: seq<nat>)
    requires a != [] && b != [] && a[0] < b[0]
    ensures Before(a, b)
  {
  }

  lemma {:induction false} EntryVisitsEnumerate(node: Node, k: nat, pos: seq<nat>)
    requires node.Mapping? && k <= |node.entries|
    ensures AllGenuine(node, EntryVisits(node, k)) && InPreorder(EntryVisits(node, k))
    ensures forall i | 0 <= i < |EntryVisits(node, k)| ::
              EntryVisits(node, k)[i].pos != [] && EntryVisits(node, k)[i].pos[0] >= k
    ensures Has(EntryVisits(node, k), pos) <==> pos != [] && pos[0] >= k && NodeAt(node, pos).Some?
    decreases node, 0, |node.entries| - k
  {
    hide Genuine, Before, Visits;
    if k < |node.entries| {
      var key, child := node.entries[k].key, node.entries[k].value;
      var inner, rest := Visits(child), EntryVisits(node, k + 1);
      var outer := Under(k, key, inner);
      EntryVisitsEnumerate(node, k + 1, pos);
      VisitsEnumerate(child, if pos == [] then [] else pos[1..]);
      assert EntryVisits(node, k) == outer + rest;
      forall i | 0 <= i < |inner| ensures Genuine(node, outer[i]) {
        GenuineUnder(node, k, inner[i]);
      }
      forall i, j | 0 <= i < j < |outer| ensures Before(outer[i].pos, outer[j].pos) {
        BeforeUnder(k, inner[i].pos, inner[j].pos);
      }
      forall i, j | 0 <= i < |outer| && 0 <= j < |rest| ensures Before(outer[i].pos, rest[j].pos) {
        LowerFirst(outer[i].pos, rest[j].pos);
      }
      HasUnder(k, key, inner, pos);
      HasAppend(outer, rest, pos);
    }
  }

  lemma HasUnder(k: nat, key: string, vs: seq<Visit>, pos: seq<nat>)
    ensures Has(Under(k, key, vs), pos) <==> pos != [] && pos[0] == k && Has(vs, pos[1..])
  {
    if pos != [] && pos[0] == k && Has(vs, pos[1..]) {
      var i :| 0 <= i < |vs| && vs[i].pos == pos[1..];
      assert Under(k, key, vs)[i].pos == pos;
    }
  }

  lemma HasAppend(vs: seq<Visit>, ws: seq<Visit>, pos: seq<nat>)
    ensures Has(vs + ws, pos) <==> Has(vs, pos) || Has(ws, pos)
  {
    if i :| 0 <= i < |vs| && vs[i].pos == pos {
      assert (vs + ws)[i].pos == pos;
    }
    if i :| 0 <= i < |ws| && ws[i].pos == pos {
      assert (vs + ws)[|vs| + i].pos == pos;
    }
  }

  // ---------- what is listed ----------

  function PathFrom(prefix: string, keys: seq<string>): string
    decreases |keys|
  {
    if keys == [] then prefix else PathFrom(Join(prefix, keys[0]), keys[1..])
  }

  predicate AllAllowed(keys: seq<string>) {
    forall k | 0 <= k < |keys| :: Allowed(keys[k])
  }

  /** The visits whose every key is allowed, each with its dotted path. */
  function Listed(prefix: string, vs: seq<Visit>): seq<Member> {
    if vs == [] then []
    else (if AllAllowed(vs[0].keys) then [(PathFrom(prefix, vs[0].keys), vs[0].node)] else []) + Listed(prefix, vs[1..])
  }

  lemma {:induction false} ListedAppend(prefix: string, vs: seq<Visit>, ws: seq<Visit>)
    ensures Listed(prefix, vs + ws) == Listed(prefix, vs) + Listed(prefix, ws)
  {
    hide AllAllowed, PathFrom;
    if vs == [] {
      assert vs + ws == ws;
    } else {
      assert (vs + ws)[1..] == vs[1..] + ws;
      ListedAppend(prefix, vs[1..], ws);
    }
  }

  lemma {:induction false} ListedUnder(prefix: string, k: nat, key: string, vs: seq<Visit>)
    ensures Listed(prefix, Under(k, key, vs)) == if Allowed(key) then Listed(Join(prefix, key), vs) else []
  {
    hide Allowed, Join;
    if vs != [] {
      assert Under(k, key, vs)[1..] == Under(k, key, vs[1..]);
      ListedUnder(prefix, k, key, vs[1..]);
      KeysCons(prefix, key, vs[0].keys);
    }
  }

  lemma {:induction false} KeysCons(prefix: string, key: string, keys: seq<string>)
    ensures AllAllowed([key] + keys) <==> Allowed(key) && AllAllowed(keys)
    ensures PathFrom(prefix, [key] + keys) == PathFrom(Join(prefix, key), keys)
  {
    hide Allowed, Join;
    assert ([key] + keys)[1..] == keys;
    if AllAllowed([key] + keys) {
      assert ([key] + keys)[0] == key;
    }
  }

  lemma JoinAllowed(prefix: string, key: string)
    requires Allowed(prefix)
    ensures Allowed(Join(prefix, key)) <==> Allowed(key)
  {
    if prefix != "" {
      var s := prefix + "." + key;
      assert forall k | 0 <= k < |key| :: s[|prefix| + 1 + k] == key[k];
    }
  }

  /** The listing is, in preorder, exactly the nodes whose every key is allowed. */
  lemma {:induction false} FlattenLists(prefix: string, node: Node)
    requires Allowed(prefix)
    ensures Flatten(prefix, node) == Listed(prefix, Visits(node))
    decreases node, 1
  {
    hide Allowed, EntryVisits, FlattenEntries, AllAllowed;
    var root := Visit([], [], node);
    var below := if node.Mapping? then EntryVisits(node, 0) else [];
    ListedAppend(prefix, [root], below);
    ListedRoot(prefix, node);
    if node.Mapping? {
      EntriesList(prefix, node, 0);
      assert node.entries[0..] == node.entries;
    }
  }

  lemma {:induction false} ListedRoot(prefix: string, node: Node)
    ensures Listed(prefix, [Visit([], [], node)]) == [(prefix, node)] && Listed(prefix, []) == []
  {
    assert [Visit([], [], node)][1..] == [];
  }

  lemma {:induction false} EntriesList(prefix: string, node: Node, k: nat)
    requires Allowed(prefix) && node.Mapping? && k <= |node.entries|
    ensures FlattenEntries(prefix, node.entries[k..]) == Listed(prefix, EntryVisits(node, k))
    decreases node, 0, |node.entries| - k
  {
    hide Allowed, Visits, Flatten, Listed, Join;
    if k == |node.entries| {
      ListedRoot(prefix, node);
    } else {
      var entry := node.entries[k];
      FlattenStep([], prefix, node.entries, k);
      EntriesList(prefix, node, k + 1);
      ListedAppend(prefix, Under(k, entry.key, Visits(entry.value)), EntryVisits(node, k + 1));
      ListedUnder(prefix, k, entry.key, Visits(entry.value));
      JoinAllowed(prefix, entry.key);
      if Allowed(entry.key) {
        FlattenLists(Join(prefix, entry.key), entry.value);
      } else {
        NotListed(Join(prefix, entry.key), entry.value);
      }
    }
  }

  lemma NotListed(prefix: string, node: Node)
    requires !Allowed(prefix)
    ensures Flatten(prefix, node) == []
  {
  }

  // ---------- back from a path to its node ----------

  /** Keys that a dotted path can be taken apart into again. */
  predicate GoodKey(key: string) {
    key != "" && '.' !in key
  }

  /** Every key that is met on the way to a listed node is good, and such siblings have different keys. */
  predicate GoodKeys(node: Node) {
    node.Mapping? ==>
      && (forall i | 0 <= i < |node.entries| && Allowed(node.entries[i].key) ::
            GoodKey(node.entries[i].key) && GoodKeys(node.entries[i].value))
      && (forall i, j | 0 <= i < j < |node.entries| && Allowed(node.entries[i].key) ::
            node.entries[i].key != node.entries[j].key)
  }

  /** The parts of a path between its dots; the empty path has none. `part` is the part being read. */
  function Split(path: string, part: string): seq<string>
    decreases |path|
  {
    if path == "" then (if part == "" then [] else [part])
    else if path[0] == '.' then [part] + Split(path[1..], "")
    else Split(path[1..], part + [path[0]])
  }

  function IndexOfKey(entries: seq<Entry>, key: string): (k: nat)
    ensures k <= |entries| && forall i | 0 <= i < k :: entries[i].key != key
    ensures k < |entries| ==> entries[k].key == key
  {
    if entries == [] || entries[0].key == key then 0 else 1 + IndexOfKey(entries[1..], key)
  }

  /** Looking keys up from `node`. */
  function Follow(node: Node, keys: seq<string>): Option<seq<nat>>
    decreases |keys|
  {
    if keys == [] then Some([])
    else if !node.Mapping? then None
    else
      var k := IndexOfKey(node.entries, keys[0]);
      if k == |node.entries| then None
      else match Follow(node.entries[k].value, keys[1..])
        case None => None
        case Some(pos) => Some([k] + pos)
  }

  predicate GoodPath(keys: seq<string>) {
    forall k | 0 <= k < |keys| :: GoodKey(keys[k])
  }

  lemma {:induction false} SplitKey(key: string, rest: string, part: string)
    requires '.' !in key
    ensures Split(key + rest, part) == Split(rest, part + key)
  {
    if key == "" {
      assert key + rest == rest && part + key == part;
    } else {
      assert (key + rest)[1..] == key[1..] + rest;
      SplitKey(key[1..], rest, part + [key[0]]);
      assert part + [key[0]] + key[1..] == part + key;
    }
  }

  /** Appending one part to a path appends it to what the path splits into. */
  lemma {:induction false} SplitJoin(path: string, key: string, part: string)
    requires (path != "" || part != "") && GoodKey(key)
    requires path != "" ==> Last(path) != '.'
    ensures Split(path + "." + key, part) == Split(path, part) + [key]
    decreases |path|
  {
    if path == "" {
      assert path + "." + key == "." + key && ("." + key)[1..] == key && "" + key == key;
      SplitKey(key, "", "");
      assert key + "" == key;
    } else {
      assert (path + "." + key)[1..] == path[1..] + "." + key;
      SplitJoin(path[1..], key, if path[0] == '.' then "" else part + [path[0]]);
    }
  }

  lemma {:induction false} JoinSplits(prefix: string, key: string)
    requires GoodKey(key) && (prefix != "" ==> Last(prefix) != '.')
    ensures Split(Join(prefix, key), "") == Split(prefix, "") + [key]
    ensures Join(prefix, key) != "" && Last(Join(prefix, key)) != '.'
  {
    assert Last(key) in key;
    if prefix == "" {
      SplitKey(key, "", "");
      assert key + "" == key && "" + key == key;
    } else {
      SplitJoin(prefix, key, "");
      assert Last(prefix + "." + key) == Last(key);
    }
  }

  /** Splitting a dotted path gives back its keys. */
  lemma {:induction false} SplitPath(prefix: string, keys: seq<string>)
    requires GoodPath(keys) && (prefix != "" ==> Last(prefix) != '.')
    ensures Split(PathFrom(prefix, keys), "") == Split(prefix, "") + keys
    decreases |keys|
  {
    hide Split, GoodKey, Join;
    if keys != [] {
      JoinSplits(prefix, keys[0]);
      SplitPath(Join(prefix, keys[0]), keys[1..]);
      assert Split(prefix, "") + [keys[0]] + keys[1..] == Split(prefix, "") + keys;
    }
  }

  lemma {:induction false} FollowKeys(node: Node, pos: seq<nat>)
    requires GoodKeys(node) && NodeAt(node, pos).Some? && AllAllowed(KeysAt(node, pos))
    ensures GoodPath(KeysAt(node, pos)) && Follow(node, KeysAt(node, pos)) == Some(pos)
    decreases |pos|
  {
    hide GoodKey, IndexOfKey, Allowed;
    if pos != [] {
      var k, keys := pos[0], KeysAt(node, pos);
      assert Allowed(keys[0]) && keys[1..] == KeysAt(node.entries[k].value, pos[1..]);
      assert forall i | 0 <= i < |keys| - 1 :: keys[1..][i] == keys[i + 1];
      FollowKeys(node.entries[k].value, pos[1..]);
      assert forall i | 1 <= i < |keys| :: keys[i] == keys[1..][i - 1];
      assert IndexOfKey(node.entries, keys[0]) == k;
      assert pos == [k] + pos[1..];
    }
  }

  /** The path under which a node is listed leads back to that very node. */
  lemma {:induction false} PathLeadsBack(root: Node, v: Visit)
    requires GoodKeys(root) && v in Visits(root) && AllAllowed(v.keys)
    ensures Follow(root, Split(PathFrom("", v.keys), "")) == Some(v.pos)
    ensures NodeAt(root, v.pos) == Some(v.node)
  {
    hide Follow, KeysAt, Visits, PathFrom, GoodKeys, AllAllowed;
    VisitsEnumerate(root, v.pos);
    FollowKeys(root, v.pos);
    SplitPath("", v.keys);
    assert Split("", "") + v.keys == v.keys;
  }

  // ---------- the condition on keys is exact ----------

  /** The path of the node at `pos` leads back to it. */
  predicate LeadsBack(root: Node, pos: seq<nat>)
    requires NodeAt(root, pos).Some?
  {
    Follow(root, Split(PathFrom("", KeysAt(root, pos)), "")) == Some(pos)
  }

  /** This holds of every node that is listed. */
  ghost predicate AllLeadBack(root: Node) {
    forall pos | NodeAt(root, pos).Some? && AllAllowed(KeysAt(root, pos)) :: LeadsBack(root, pos)
  }

  lemma AllowedSnoc(keys: seq<string>, key: string)
    ensures AllAllowed(keys + [key]) <==> AllAllowed(keys) && Allowed(key)
  {
    hide Allowed;
    if AllAllowed(keys + [key]) {
      assert (keys + [key])[|keys|] == key;
      assert forall k | 0 <= k < |keys| :: (keys + [key])[k] == keys[k];
    }
  }

  lemma {:induction false} ChildAt(root: Node, pos: seq<nat>, k: nat)
    requires NodeAt(root, pos).Some?
    ensures var node := NodeAt(root, pos).value;
            if node.Mapping? && k < |node.entries|
            then NodeAt(root, pos + [k]) == Some(node.entries[k].value)
                 && KeysAt(root, pos + [k]) == KeysAt(root, pos) + [node.entries[k].key]
            else NodeAt(root, pos + [k]) == None
    decreases |pos|
  {
    if pos == [] {
      assert [] + [k] == [k] && [k][1..] == [];
    } else {
      assert (pos + [k])[1..] == pos[1..] + [k];
      ChildAt(root.entries[pos[0]].value, pos[1..], k);
    }
  }

  lemma {:induction false} PathSnoc(prefix: string, keys: seq<string>, key: string)
    ensures PathFrom(prefix, keys + [key]) == Join(PathFrom(prefix, keys), key)
    decreases |keys|
  {
    hide Join;
    if keys == [] {
      assert [] + [key] == [key] && [key][1..] == [];
    } else {
      assert (keys + [key])[1..] == keys[1..] + [key];
      PathSnoc(Join(prefix, keys[0]), keys[1..], key);
    }
  }

  lemma {:induction false} FollowedKeys(node: Node, keys: seq<string>)
    ensures var r := Follow(node, keys); r.Some? ==> NodeAt(node, r.value).Some? && KeysAt(node, r.value) == keys
    decreases |keys|
  {
    if keys != [] && node.Mapping? {
      var k := IndexOfKey(node.entries, keys[0]);
      if k < |node.entries| {
        var child := node.entries[k].value;
        FollowedKeys(child, keys[1..]);
        var r := Follow(child, keys[1..]);
        if r.Some? {
          assert ([k] + r.value)[1..] == r.value;
          assert [keys[0]] + keys[1..] == keys;
        }
      }
    }
  }

  /** No part has a dot in it. */
  lemma {:induction false} PartsHaveNoDot(path: string, part: string)
    requires '.' !in part
    ensures forall s | s in Split(path, part) :: '.' !in s
    decreases |path|
  {
    if path != "" {
      PartsHaveNoDot(path[1..], if path[0] == '.' then "" else part + [path[0]]);
    }
  }

  /** A dot at the end of a path is dropped. */
  lemma {:induction false} SplitDropsDot(path: string, part: string)
    requires if path == "" then part != "" else Last(path) != '.'
    ensures Split(path + ".", part) == Split(path, part)
    decreases |path|
  {
    if path == "" {
      assert path + "." == "." && "."[1..] == "";
    } else {
      assert (path + ".")[1..] == path[1..] + ".";
      SplitDropsDot(path[1..], if path[0] == '.' then "" else part + [path[0]]);
    }
  }

  lemma {:induction false} GoodPathEnds(keys: seq<string>)
    requires GoodPath(keys)
    ensures PathFrom("", keys) == "" <==> keys == []
    ensures keys != [] ==> Last(PathFrom("", keys)) != '.'
  {
    if keys != [] {
      var before, last := keys[..|keys| - 1], keys[|keys| - 1];
      assert keys == before + [last];
      GoodPathEnds(before);
      PathSnoc("", before, last);
      hide Split;
      assert GoodKey(last);
      assert before != [] ==> PathFrom("", before) != "";
      JoinSplits(PathFrom("", before), last);
    }
  }

  /** A key that a path can be taken apart into again, if the keys before it can. */
  lemma {:induction false} SplitsBackIsGood(keys: seq<string>, key: string)
    requires GoodPath(keys) && Split(PathFrom("", keys + [key]), "") == keys + [key]
    ensures GoodKey(key)
  {
    var path := PathFrom("", keys);
    PathSnoc("", keys, key);
    PartsHaveNoDot(Join(path, key), "");
    assert (keys + [key])[|keys|] == key;
    GoodPathEnds(keys);
    SplitPath("", keys);
    assert Split("", "") + keys == keys;
    if keys != [] {
      SplitDropsDot(path, "");
      assert key == "" ==> Join(path, key) == path + ".";
    }
  }

  lemma {:induction false} LeadingBackNeedsGoodKeys(root: Node, pos: seq<nat>, node: Node)
    requires AllLeadBack(root) && NodeAt(root, pos) == Some(node)
    requires GoodPath(KeysAt(root, pos)) && AllAllowed(KeysAt(root, pos))
    ensures GoodKeys(node)
    decreases node
  {
    hide Follow, Split, PathFrom, KeysAt, NodeAt, GoodKey, AllAllowed, Allowed;
    if node.Mapping? {
      var keys := KeysAt(root, pos);
      forall i | 0 <= i < |node.entries| && Allowed(node.entries[i].key)
        ensures GoodKey(node.entries[i].key) && GoodKeys(node.entries[i].value)
      {
        var key := node.entries[i].key;
        ChildAt(root, pos, i);
        AllowedSnoc(keys, key);
        assert LeadsBack(root, pos + [i]);
        FollowedKeys(root, Split(PathFrom("", keys + [key]), ""));
        SplitsBackIsGood(keys, key);
        LeadingBackNeedsGoodKeys(root, pos + [i], node.entries[i].value);
      }
      forall i, j | 0 <= i < j < |node.entries| && Allowed(node.entries[i].key)
        ensures node.entries[i].key != node.entries[j].key
      {
        ChildAt(root, pos, i);
        ChildAt(root, pos, j);
        AllowedSnoc(keys, node.entries[i].key);
        PositionsDiffer(pos, i, j);
        OnePosition(root, pos + [i], pos + [j]);
      }
    }
  }

  lemma OnePosition(root: Node, a: seq<nat>, b: seq<nat>)
    requires AllLeadBack(root) && NodeAt(root, a).Some? && NodeAt(root, b).Some? && AllAllowed(KeysAt(root, a))
    ensures KeysAt(root, a) == KeysAt(root, b) ==> a == b
  {
    hide Follow, Split, PathFrom, KeysAt, NodeAt, AllAllowed;
    assert LeadsBack(root, a);
    assert AllAllowed(KeysAt(root, b)) ==> LeadsBack(root, b);
  }

  lemma PositionsDiffer(pos: seq<nat>, i: nat, j: nat)
    requires i != j
    ensures pos + [i] != pos + [j]
  {
    assert (pos + [i])[|pos|] != (pos + [j])[|pos|];
  }

  /** The path of every listed node leads back to it if and only if all keys on the way to listed nodes
      are non-empty and dot-free, and siblings among them have different keys. */
  lemma {:induction false} LeadsBackIffGoodKeys(root: Node)
    ensures AllLeadBack(root) <==> GoodKeys(root)
  {
    hide AllAllowed, GoodKeys, Follow, Split, PathFrom;
    if GoodKeys(root) {
      forall pos | NodeAt(root, pos).Some? && AllAllowed(KeysAt(root, pos)) ensures LeadsBack(root, pos) {
        FollowKeys(root, pos);
        SplitPath("", KeysAt(root, pos));
        SplitNothing(KeysAt(root, pos));
      }
    }
    if AllLeadBack(root) {
      NoKeys();
      LeadingBackNeedsGoodKeys(root, [], root);
    }
  }

  lemma SplitNothing(keys: seq<string>)
    ensures Split("", "") + keys == keys
  {
    assert Split("", "") == [];
  }

  lemma NoKeys()
    ensures GoodPath([]) && AllAllowed([])
  {
  }

  /** Where in the list of all visits the listed members come from, in the same order. */
  ghost function Sources(vs: seq<Visit>): seq<Visit> {
    if vs == [] then []
    else (if AllAllowed(vs[0].keys) then [vs[0]] else []) + Sources(vs[1..])
  }

  lemma {:induction false} SourcesOf(prefix: string, vs: seq<Visit>)
    ensures |Sources(vs)| == |Listed(prefix, vs)|
    ensures forall i | 0 <= i < |Sources(vs)| ::
              && Sources(vs)[i] in vs && AllAllowed(Sources(vs)[i].keys)
              && Listed(prefix, vs)[i] == (PathFrom(prefix, Sources(vs)[i].keys), Sources(vs)[i].node)
    ensures InPreorder(vs) ==> InPreorder(Sources(vs))
  {
    hide AllAllowed, PathFrom, Before;
    if vs != [] {
      SourcesOf(prefix, vs[1..]);
      if InPreorder(vs) {
        assert InPreorder(vs[1..]);
        forall j | 0 <= j < |Sources(vs[1..])| ensures Before(vs[0].pos, Sources(vs[1..])[j].pos) {
          var i :| 0 <= i < |vs[1..]| && vs[1..][i] == Sources(vs[1..])[j];
          assert vs[i + 1] == vs[1..][i];
        }
      }
    }
  }

  lemma {:induction false} BeforeDiffers(a: seq<nat>, b: seq<nat>)
    requires Before(a, b)
    ensures a != b
  {
    if a != [] && a[0] == b[0] {
      BeforeDiffers(a[1..], b[1..]);
    }
  }

  /** The listing can be undone: each listed path leads to its node, and no two paths are equal. */
  lemma {:induction false} ListingIsInvertible(root: Node)
    requires GoodKeys(root)
    ensures forall m | m in Flatten("", root) ::
              var pos := Follow(root, Split(m.0, ""));
              pos.Some? && NodeAt(root, pos.value) == Some(m.1)
    ensures forall i, j | 0 <= i < j < |Flatten("", root)| :: Flatten("", root)[i].0 != Flatten("", root)[j].0
  {
    hide Follow, Visits, PathFrom, GoodKeys, NodeAt, Split, Listed, Sources, Before, AllAllowed;
    FlattenLists("", root);
    VisitsEnumerate(root, []);
    SourcesOf("", Visits(root));
    var members, sources := Flatten("", root), Sources(Visits(root));
    forall i | 0 <= i < |members|
      ensures Follow(root, Split(members[i].0, "")) == Some(sources[i].pos)
      ensures NodeAt(root, sources[i].pos) == Some(members[i].1)
    {
      PathLeadsBack(root, sources[i]);
    }
    forall i, j | 0 <= i < j < |members| ensures members[i].0 != members[j].0 {
      BeforeDiffers(sources[i].pos, sources[j].pos);
    }
  }

  /** Without the condition on keys even the paths alone can coincide: a dot inside a key lets two nodes
      be listed under one path. For the paths to differ the condition is sufficient, not necessary: a tree
      with the single key "a.b" lists different paths. */
  lemma {:induction false} DottedKeysCollide(v: Node, w: Node)
    requires !v.Mapping? && !w.Mapping?
    ensures var root := Mapping([Entry("a.b", v), Entry("a", Mapping([Entry("b", w)]))]);
            Flatten("", root) == [("", root), ("a.b", v), ("a", root.entries[1].value), ("a.b", w)]
  {
    var inner := Mapping([Entry("b", w)]);
    var entries := [Entry("a.b", v), Entry("a", inner)];
    assert entries[1..] == [Entry("a", inner)] && entries[1..][1..] == [] && inner.entries[1..] == [];
    assert Allowed("a") && Allowed("a.b") && Allowed("");
    assert Join("a", "b") == "a.b" && Join("", "a.b") == "a.b" && Join("", "a") == "a";
    assert FlattenEntries("a", inner.entries) == Flatten("a.b", w) + FlattenEntries("a", []);
    assert Flatten("a", inner) == [("a", inner)] + [("a.b", w)];
    assert FlattenEntries("", entries[1..]) == Flatten("a", inner) + FlattenEntries("", []);
    assert FlattenEntries("", entries) == Flatten("a.b", v) + FlattenEntries("", entries[1..]);
  }
}
