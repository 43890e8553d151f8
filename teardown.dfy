/** What `destroy_node` frees: the subtree below a node, split into the
    node itself and the subtrees of its three children, together with the
    entries the lists of those nodes hold. */
module Teardown {
  import opened Common
  import opened TcamEntry
  import opened TcamNode
  import opened EntryList
  import opened Trie
  import opened TcamRules

  /** The subtree a child pointer leads to; nullptr leads to none. */
  ghost function SubAt(nodes: map<nat, Node>, c: Ptr): set<nat>
  {
    if c.Addr? then Sub(nodes, c.a) else {}
  }

  /** The entries the lists of the nodes in `s` hold. */
  ghost function Held(lists: map<nat, seq<nat>>, s: set<nat>): set<nat>
  {
    set b, y | b in s && b in lists && y in lists[b] :: y
  }

  /** The entries of one node are the entries of its list. */
  lemma HeldOne(lists: map<nat, seq<nat>>, a: nat)
    requires a in lists
    ensures Held(lists, {a}) == Elems(lists[a])
  {
  }

  /** A prefix one longer holds one more entry. */
  lemma ElemsGrow(list: seq<nat>, k: nat)
    requires k < |list|
    ensures Elems(list[..k + 1]) == Elems(list[..k]) + {list[k]}
  {
    assert list[..k + 1] == list[..k] + [list[k]];
  }

  /** Taking two sets of keys out of a map one after the other takes out
      their union. */
  lemma MinusMinus<K, V>(m: map<K, V>, s: set<K>, t: set<K>)
    ensures (m - s) - t == m - (s + t)
  {
  }

  /** A second update of one key overrides the first. */
  lemma UpdateTwice<K, V>(m: map<K, V>, k: K, v: V, w: V)
    ensures m[k := v][k := w] == m[k := w]
  {
  }

  /** Erasing the head `list[k]` of the list `list[k..]` of node `a`
      leaves the list `list[k + 1..]`, headed by the next entry, and frees
      just that entry. */
  lemma HeadDropped<T>(nodes: map<nat, Node>, lists: map<nat, seq<nat>>, entries: map<nat, Entry<T>>,
                       a: nat, list: seq<nat>, k: nat,
                       nodes': map<nat, Node>, lists': map<nat, seq<nat>>, entries': map<nat, Entry<T>>)
    requires k < |list| && a in lists && lists[a] == list[k..]
    requires Erased(nodes, lists, entries, a, list[k], nodes', lists', entries')
    ensures lists' == lists[a := list[k + 1..]]
    ensures nodes' == nodes[a := nodes[a].(entries := PtrAt(list, k + 1))]
    ensures entries' == entries - {list[k]}
    ensures PtrAt(list[k..], 1) == PtrAt(list, k + 1)
  {
    assert list[k..][0] == list[k];
    assert IndexOf(list[k..], list[k]) == 0;
    assert RemoveAt(list[k..], 0) == list[k + 1..];
  }

  /** One step of the loop that empties node `a`'s list: with the first
      `k` entries of `list` gone, erasing `list[k]` leaves the first
      `k + 1` gone. */
  lemma DropStep<T>(nodes0: map<nat, Node>, lists0: map<nat, seq<nat>>, entries0: map<nat, Entry<T>>,
                    a: nat, list: seq<nat>, k: nat, head: Ptr,
                    nodes: map<nat, Node>, lists: map<nat, seq<nat>>, entries: map<nat, Entry<T>>,
                    nodes': map<nat, Node>, lists': map<nat, seq<nat>>, entries': map<nat, Entry<T>>)
    requires k < |list| && a in nodes0
    requires lists == lists0[a := list[k..]] && nodes == nodes0[a := nodes0[a].(entries := head)]
    requires entries == entries0 - Elems(list[..k])
    requires Erased(nodes, lists, entries, a, list[k], nodes', lists', entries')
    ensures lists' == lists0[a := list[k + 1..]]
    ensures nodes' == nodes0[a := nodes0[a].(entries := PtrAt(list, k + 1))]
    ensures entries' == entries0 - Elems(list[..k + 1])
    ensures PtrAt(list[k..], 1) == PtrAt(list, k + 1)
  {
    HeadDropped(nodes, lists, entries, a, list, k, nodes', lists', entries');
    ElemsGrow(list, k);
    UpdateTwice(lists0, a, list[k..], list[k + 1..]);
    UpdateTwice(nodes0, a, nodes0[a].(entries := head), nodes0[a].(entries := PtrAt(list, k + 1)));
    MinusMinus(entries0, Elems(list[..k]), {list[k]});
  }

  /** The loop that empties node `a`'s list stops at its end, having
      freed every entry the list held. */
  lemma DropDone(lists: map<nat, seq<nat>>, a: nat, list: seq<nat>, k: nat)
    requires a in lists && lists[a] == list && k <= |list| && PtrAt(list[k..], 0) == Null
    ensures list[k..] == [] && Elems(list[..k]) == Held(lists, {a})
  {
    assert list[..k] == list;
    HeldOne(lists, a);
  }

  /** Every node of `s` is live and as it was in `tree`, and its entry
      list is intact. */
  ghost predicate Intact<T>(tree: map<nat, Node>, nodes: map<nat, Node>, lists: map<nat, seq<nat>>,
                            entries: map<nat, Entry<T>>, s: set<nat>)
  {
    forall b :: b in s ==>
      b in tree && b in nodes && nodes[b] == tree[b] && b in lists && ListOk(entries, b, tree[b].entries, lists[b])
  }

  /** The subtree of the child in slot `s` of `a` lies strictly below `a`,
      and each of its nodes selects `s` at `a`'s position. */
  lemma SubChild(size: nat, root: Ptr, tree: map<nat, Node>, a: nat, s: Slot)
    requires Shaped(size, root, tree) && a in tree && Child(tree[a], s).Addr?
    ensures var c := Child(tree[a], s).a;
            c in tree && tree[a].position < tree[c].position <= size &&
            Sub(tree, c) <= Sub(tree, a) - {a}
    ensures forall b :: b in Sub(tree, Child(tree[a], s).a) ==>
              tree[a].position < |tree[b].data| && tree[a].position < |tree[b].mask| &&
              SlotOf(tree[b].data, tree[b].mask, tree[a].position) == s
  {
    var c := Child(tree[a], s).a;
    ChildReaches(size, root, tree, a, s);
    assert NodeOk(size, root, tree, a) && ChildOk(tree, a, s);
    assert NodeOk(size, root, tree, c);
    forall b | b in Sub(tree, c)
      ensures b in Sub(tree, a) - {a}
      ensures tree[a].position < |tree[b].data| && tree[a].position < |tree[b].mask|
      ensures SlotOf(tree[b].data, tree[b].mask, tree[a].position) == s
    {
      ReachesTrans(tree, b, c, a);
      ReachesAgree(size, root, tree, b, c);
    }
  }

  /** A subtree is its top plus the subtrees of the top's children, and
      those three are disjoint and do not hold the top. */
  lemma SubSplit(size: nat, root: Ptr, tree: map<nat, Node>, a: nat)
    requires Shaped(size, root, tree) && a in tree
    ensures var n := tree[a];
            var s0, s1, s2 := SubAt(tree, n.n0), SubAt(tree, n.n1), SubAt(tree, n.ndc);
            a in Sub(tree, a) &&
            Sub(tree, a) == {a} + s0 + s1 + s2 &&
            a !in s0 && a !in s1 && a !in s2 && s0 !! s1 && s0 !! s2 && s1 !! s2
    ensures var n := tree[a];
            (n.n0.Addr? ==> n.n0.a in tree && n.position < tree[n.n0.a].position <= size) &&
            (n.n1.Addr? ==> n.n1.a in tree && n.position < tree[n.n1.a].position <= size) &&
            (n.ndc.Addr? ==> n.ndc.a in tree && n.position < tree[n.ndc.a].position <= size)
  {
    var n := tree[a];
    var s0, s1, s2 := SubAt(tree, n.n0), SubAt(tree, n.n1), SubAt(tree, n.ndc);
    if n.n0.Addr? {
      SubChild(size, root, tree, a, Zero);
    }
    if n.n1.Addr? {
      SubChild(size, root, tree, a, One);
    }
    if n.ndc.Addr? {
      SubChild(size, root, tree, a, DontCare);
    }
    forall b | b in Sub(tree, a) && b != a
      ensures b in s0 + s1 + s2
    {
      ReachesVia(size, root, tree, b, a);
    }
    assert Reaches(tree, a, a);
  }

  /** A set of nodes stays intact while other nodes are freed along with
      the entries their lists hold: lists never share an entry. */
  lemma Shrink<T>(tree: map<nat, Node>, nodes: map<nat, Node>, lists: map<nat, seq<nat>>,
                  entries: map<nat, Entry<T>>, nodes': map<nat, Node>, lists': map<nat, seq<nat>>,
                  s: set<nat>, d: set<nat>)
    requires Intact(tree, nodes, lists, entries, s) && Intact(tree, nodes, lists, entries, d) && s !! d
    requires forall b :: b in s ==> b in nodes' && nodes'[b] == nodes[b] && b in lists' && lists'[b] == lists[b]
    ensures Intact(tree, nodes', lists', entries - Held(lists, d), s)
  {
    var entries' := entries - Held(lists, d);
    forall b | b in s
      ensures ListOk(entries', b, tree[b].entries, lists[b])
    {
      ListNodes(entries, b, tree[b].entries, lists[b]);
      forall y | y in lists[b]
        ensures y in entries' && entries'[y] == entries[y]
      {
        forall g | g in d && g in lists
          ensures y !in lists[g]
        {
          ListNodes(entries, g, tree[g].entries, lists[g]);
        }
      }
      ListOkFrame(entries, entries', b, tree[b].entries, lists[b]);
    }
  }

  /** Every entry of node `a`'s list is live and points back at `a`. */
  lemma ListNodes<T>(entries: map<nat, Entry<T>>, a: nat, head: Ptr, list: seq<nat>)
    requires ListOk(entries, a, head, list)
    ensures forall y :: y in list ==> y in entries && entries[y].node == Addr(a)
  {
    forall y | y in list
      ensures y in entries && entries[y].node == Addr(a)
    {
      var i :| 0 <= i < |list| && list[i] == y;
      assert LinkOk(entries, a, list, i);
    }
  }

  /** Of an intact union of two disjoint sets, the first is intact, and
      the second stays intact once the first is freed. */
  lemma Peel<T>(tree: map<nat, Node>, nodes: map<nat, Node>, lists: map<nat, seq<nat>>,
                entries: map<nat, Entry<T>>, nodes': map<nat, Node>, lists': map<nat, seq<nat>>,
                s: set<nat>, t: set<nat>)
    requires Intact(tree, nodes, lists, entries, s + t) && s !! t
    requires forall b :: b in t ==> b in nodes' && nodes'[b] == nodes[b] && b in lists' && lists'[b] == lists[b]
    ensures Intact(tree, nodes, lists, entries, s)
    ensures Intact(tree, nodes', lists', entries - Held(lists, s), t)
  {
    Shrink(tree, nodes, lists, entries, nodes', lists', t, s);
  }

  /** The case of `Peel` where the first set is freed outright. */
  lemma PeelOff<T>(tree: map<nat, Node>, nodes: map<nat, Node>, lists: map<nat, seq<nat>>,
                   entries: map<nat, Entry<T>>, s: set<nat>, t: set<nat>)
    requires Intact(tree, nodes, lists, entries, s + t) && s !! t
    ensures Intact(tree, nodes, lists, entries, s)
    ensures Intact(tree, nodes - s, lists - s, entries - Held(lists, s), t)
  {
    Peel(tree, nodes, lists, entries, nodes - s, lists - s, s, t);
  }

  /** The case of `Peel` where the first set is one node whose list is
      emptied and whose entries are freed. */
  lemma PeelTop<T>(tree: map<nat, Node>, nodes: map<nat, Node>, lists: map<nat, seq<nat>>,
                   entries: map<nat, Entry<T>>, a: nat, x: Node, t: set<nat>)
    requires Intact(tree, nodes, lists, entries, {a} + t) && a !in t
    ensures Intact(tree, nodes, lists, entries, {a})
    ensures Intact(tree, nodes[a := x], lists[a := []], entries - Held(lists, {a}), t)
  {
    Peel(tree, nodes, lists, entries, nodes[a := x], lists[a := []], {a}, t);
  }

  /** Destroying the three child subtrees one after the other frees the
      nodes of all three. */
  lemma ChildrenNodes<V>(nodes: map<nat, V>, s0: set<nat>, s1: set<nat>, s2: set<nat>)
    ensures ((nodes - s0) - s1) - s2 == nodes - (s0 + s1 + s2)
  {
  }

  /** ... and the entries the three hold, each step reading the lists the
      previous steps left. */
  lemma ChildrenEntries<T>(lists: map<nat, seq<nat>>, entries: map<nat, Entry<T>>,
                           s0: set<nat>, s1: set<nat>, s2: set<nat>)
    requires s0 !! s1 && s0 !! s2 && s1 !! s2
    ensures ((entries - Held(lists, s0)) - Held(lists - s0, s1)) - Held((lists - s0) - s1, s2) ==
            entries - Held(lists, s0 + s1 + s2)
  {
    HeldAgree(lists, lists - s0, s1);
    HeldAgree(lists, (lists - s0) - s1, s2);
    HeldUnion(lists, s0, s1 + s2);
    HeldUnion(lists, s1, s2);
    MinusMinus(entries, Held(lists, s0), Held(lists, s1));
    MinusMinus(entries, Held(lists, s0) + Held(lists, s1), Held(lists, s2));
  }

  /** Emptying the list of `a` and destroying the rest `r` of its
      subtree frees the entries the whole subtree holds. */
  lemma TopEntries<T>(lists: map<nat, seq<nat>>, entries: map<nat, Entry<T>>, a: nat, r: set<nat>)
    requires a !in r
    ensures (entries - Held(lists, {a})) - Held(lists[a := []], r) == entries - Held(lists, {a} + r)
  {
    HeldAgree(lists, lists[a := []], r);
    HeldUnion(lists, {a}, r);
    MinusMinus(entries, Held(lists, {a}), Held(lists, r));
  }

  /** Emptying the list of `a`, destroying the rest of its subtree `s` and
      freeing `a` frees the whole subtree and the entries it holds. */
  lemma TopFreed<T>(nodes: map<nat, Node>, lists: map<nat, seq<nat>>, entries: map<nat, Entry<T>>,
                    a: nat, x: Node, s: set<nat>)
    requires a in s
    ensures (nodes[a := x] - (s - {a})) - {a} == nodes - s
    ensures (lists[a := []] - (s - {a})) - {a} == lists - s
    ensures (entries - Held(lists, {a})) - Held(lists[a := []], s - {a}) == entries - Held(lists, s)
  {
    TopEntries(lists, entries, a, s - {a});
    assert {a} + (s - {a}) == s;
  }

  /** A subtree without its top is the subtrees of the top's children,
      and the top put back gives the subtree again. */
  lemma Rest(s: set<nat>, a: nat, s0: set<nat>, s1: set<nat>, s2: set<nat>)
    requires s == {a} + s0 + s1 + s2 && a !in s0 && a !in s1 && a !in s2
    ensures s - {a} == s0 + s1 + s2 && {a} + (s - {a}) == s
  {
  }

  /** The subtree of the root is the whole trie, every node of it is
      intact, and destroying it leaves no node and no entry; an empty trie
      holds no entry either. */
  lemma WholeTree<T>(size: nat, root: Ptr, nodes: map<nat, Node>, lists: map<nat, seq<nat>>,
                     entries: map<nat, Entry<T>>)
    requires Shaped(size, root, nodes) && StoreOk(nodes, lists, entries) && lists.Keys == nodes.Keys
    ensures root == Null ==> nodes == map[] && entries == map[]
    ensures root.Addr? ==>
              root.a in nodes && nodes[root.a].position <= size &&
              Sub(nodes, root.a) == nodes.Keys && Intact(nodes, nodes, lists, entries, Sub(nodes, root.a)) &&
              nodes - Sub(nodes, root.a) == map[] && lists - Sub(nodes, root.a) == map[] &&
              entries - Held(lists, Sub(nodes, root.a)) == map[]
  {
    RootIffEmpty(size, root, nodes);
    forall x | x in entries
      ensures entries[x].node.Addr? && entries[x].node.a in nodes
    {
      assert Attached(nodes, lists, entries, x);
    }
    if root.Addr? {
      Widths(size, root, nodes, root.a);
      forall b | b in nodes
        ensures Reaches(nodes, b, root.a)
      {
        ReachesRoot(size, root, nodes, b);
      }
      forall b | b in Sub(nodes, root.a)
        ensures ListAt(nodes, lists, entries, b)
      {
      }
      forall x | x in entries
        ensures x in Held(lists, Sub(nodes, root.a))
      {
        assert Attached(nodes, lists, entries, x);
      }
    }
  }

  /** A trie with no node and no entry keeps every invariant and holds
      no rule. */
  lemma EmptyOk<T>(size: nat, nodes: map<nat, Node>, lists: map<nat, seq<nat>>, entries: map<nat, Entry<T>>)
    requires nodes == map[] && lists == map[] && entries == map[]
    ensures TreeOk(size, Null, nodes) && StoreOk(nodes, lists, entries) && Rules(nodes, entries) == map[]
  {
  }

  /** Nothing is freed for an empty set of nodes. */
  lemma MinusNone<K, V>(m: map<K, V>)
    ensures m - {} == m
  {
  }

  /** The entries of a union of node sets are the union of their entries. */
  lemma HeldUnion(lists: map<nat, seq<nat>>, s: set<nat>, t: set<nat>)
    ensures Held(lists, s + t) == Held(lists, s) + Held(lists, t)
  {
  }

  /** The entries of `s` depend only on the lists of `s`. */
  lemma HeldAgree(lists: map<nat, seq<nat>>, lists': map<nat, seq<nat>>, s: set<nat>)
    requires forall b :: b in s ==> (b in lists' <==> b in lists) && (b in lists ==> lists'[b] == lists[b])
    ensures Held(lists', s) == Held(lists, s)
  {
  }
}
