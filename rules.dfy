/** What a `soft_tcam` holds, seen from outside: one rule per live entry,
    made of the pattern of the node the entry hangs on and the entry's own
    priority and object. */
module TcamRules {
  import opened Common
  import opened TcamEntry
  import opened TcamNode
  import opened EntryList

  /** One rule as `insert` was given it. */
  datatype Rule<T> = Rule(data: Bits, mask: Bits, priority: U32, obj: T)

  /** Node `a`'s head pointer and links spell out its ghost entry list. */
  ghost predicate ListAt<T>(nodes: map<nat, Node>, lists: map<nat, seq<nat>>, entries: map<nat, Entry<T>>, a: nat)
  {
    a in nodes && a in lists && ListOk(entries, a, nodes[a].entries, lists[a])
  }

  /** Entry `x` hangs on a live node whose list holds it. */
  ghost predicate Attached<T>(nodes: map<nat, Node>, lists: map<nat, seq<nat>>, entries: map<nat, Entry<T>>, x: nat)
  {
    x in entries && entries[x].node.Addr? && entries[x].node.a in nodes &&
    entries[x].node.a in lists && x in lists[entries[x].node.a]
  }

  /** Every node's list is well formed and every live entry is attached. */
  ghost predicate StoreOk<T>(nodes: map<nat, Node>, lists: map<nat, seq<nat>>, entries: map<nat, Entry<T>>)
  {
    (forall a {:trigger ListAt(nodes, lists, entries, a)} :: a in nodes ==> ListAt(nodes, lists, entries, a)) &&
    (forall x {:trigger Attached(nodes, lists, entries, x)} :: x in entries ==> Attached(nodes, lists, entries, x))
  }

  /** The rule entry `x` stands for. */
  ghost function RuleOf<T>(nodes: map<nat, Node>, entries: map<nat, Entry<T>>, x: nat): Rule<T>
    requires x in entries && entries[x].node.Addr? && entries[x].node.a in nodes
  {
    var n := nodes[entries[x].node.a];
    Rule(n.data, n.mask, entries[x].priority, entries[x].obj)
  }

  /** The rules the engine holds, by the address of the entry that holds each. */
  ghost function Rules<T>(nodes: map<nat, Node>, entries: map<nat, Entry<T>>): map<nat, Rule<T>>
  {
    map x | x in entries && entries[x].node.Addr? && entries[x].node.a in nodes :: RuleOf(nodes, entries, x)
  }

  /** The rules stay the same when every entry keeps its node, priority and
      object and every node an entry hangs on keeps its pattern. */
  lemma RulesFrame<T>(nodes: map<nat, Node>, entries: map<nat, Entry<T>>,
                      nodes': map<nat, Node>, entries': map<nat, Entry<T>>)
    requires entries'.Keys == entries.Keys
    requires forall x :: x in entries ==>
               entries'[x].node == entries[x].node && entries'[x].priority == entries[x].priority &&
               entries'[x].obj == entries[x].obj
    requires forall x :: x in entries && entries[x].node.Addr? ==>
               (entries[x].node.a in nodes' <==> entries[x].node.a in nodes)
    requires forall x :: x in entries && entries[x].node.Addr? && entries[x].node.a in nodes ==>
               nodes'[entries[x].node.a].data == nodes[entries[x].node.a].data &&
               nodes'[entries[x].node.a].mask == nodes[entries[x].node.a].mask
    ensures Rules(nodes', entries') == Rules(nodes, entries)
  {
  }
}
