/** YAML nodes as finite trees, and the listing of all members of a tree under dotted paths. */
module Yaml {
  import opened Wrappers

  datatype Entry = Entry(key: string, value: Node)
  datatype Node = Null | Scalar(text: string) | Sequence(items: seq<Node>) | Mapping(entries: seq<Entry>)

  /** The alphabet of configuration names. Upper-case J, K and L are missing. */
  predicate AllowedChar(c: char) {
    'a' <= c <= 'z' || 'A' <= c <= 'I' || 'M' <= c <= 'Z' || c == '.' || c == '_' || '0' <= c <= '9'
  }

  predicate Allowed(s: string) {
    forall k | 0 <= k < |s| :: AllowedChar(s[k])
  }

  /** The alphabet, written out. */
  lemma AlphabetIs(c: char)
    ensures AllowedChar(c) <==>
            || c in "abcdefghijklmnopqrstuvwxyz"
            || (c in "ABCDEFGHIJKLMNOPQRSTUVWXYZ" && c !in "JKL")
            || c in "._0123456789"
  {
    Letters(c);
  }

  function Join(prefix: string, key: string): string {
    if prefix == "" then key else prefix + "." + key
  }

  type Member = (string, Node)

  /** The members of a tree: a node whose path has a character outside the alphabet is skipped with
      everything below it. */
  function Flatten(prefix: string, node: Node): seq<Member>
    decreases node, 1
  {
    if !Allowed(prefix) then []
    else [(prefix, node)] + if node.Mapping? then FlattenEntries(prefix, node.entries) else []
  }

  function FlattenEntries(prefix: string, entries: seq<Entry>): seq<Member>
    decreases entries, 0
  {
    if entries == [] then []
    else Flatten(Join(prefix, entries[0].key), entries[0].value) + FlattenEntries(prefix, entries[1..])
  }

  class MemberList {
    var items: seq<Member>

    constructor ()
      ensures items == []
    {
      items := [];
    }
  }

  lemma {:induction false} FlattenStep(done: seq<Member>, prefix: string, entries: seq<Entry>, k: nat)
    requires k < |entries|
    ensures done + FlattenEntries(prefix, entries[k..])
            == done + Flatten(Join(prefix, entries[k].key), entries[k].value) + FlattenEntries(prefix, entries[k + 1..])
  {
    hide Flatten;
    assert entries[k..][1..] == entries[k + 1..];
  }

  lemma {:induction false} FlattenMapping(done: seq<Member>, prefix: string, node: Node)
    requires Allowed(prefix) && node.Mapping?
    ensures done + Flatten(prefix, node) == done + [(prefix, node)] + FlattenEntries(prefix, node.entries[0..])
    ensures FlattenEntries(prefix, node.entries[|node.entries|..]) == []
  {
    assert node.entries[0..] == node.entries;
  }

  method ListAllMember(prefix: string, node: Node, output: MemberList)
    modifies output
    ensures output.items == old(output.items) + Flatten(prefix, node)
    decreases node
  {
    hide Allowed, FlattenEntries;
    if !Allowed(prefix) {
      return;
    }
    output.items := output.items + [(prefix, node)];
    if node.Mapping? {
      FlattenMapping(old(output.items), prefix, node);
      hide Flatten;
      for k := 0 to |node.entries|
        invariant output.items + FlattenEntries(prefix, node.entries[k..]) == old(output.items) + Flatten(prefix, node)
      {
        FlattenStep(output.items, prefix, node.entries, k);
        var entry := node.entries[k];
        ListAllMember(if prefix == "" then entry.key else prefix + "." + entry.key, entry.value, output);
      }
    }
  }
}
