/** How the edits of `insert`, `erase` and `erase_node` change the entry
    lists and the rules the engine holds: relinking trie nodes changes no
    rule, `insert_entry` adds exactly one and `erase_entry` removes exactly
    one. */
module RuleEdit {
  import opened Common
  import opened TcamEntry
  import opened TcamNode
  import opened EntryList
  import opened TcamRules
  import opened Trie
  import opened TrieEdit

  /** A trie edit from (`nodes`, `lists`) to (`nodes'`, `lists'`) that only
      relinks, adds or frees nodes: every node it keeps keeps its pattern,
      its head pointer and its list; every node it adds and every node it
      frees has no entries. */
  ghost predicate Relinked(nodes: map<nat, Node>, lists: map<nat, seq<nat>>,
                           nodes': map<nat, Node>, lists': map<nat, seq<nat>>)
  {
    (forall a :: a in nodes' ==> a in lists') &&
    (forall a :: a in nodes && a in nodes' ==>
       a in lists && a in lists' &&
       nodes'[a].data == nodes[a].data && nodes'[a].mask == nodes[a].mask &&
       nodes'[a].entries == nodes[a].entries && lists'[a] == lists[a]) &&
    (forall a :: a in nodes' && a !in nodes ==> a in lists' && nodes'[a].entries == Null && lists'[a] == []) &&
    (forall a :: a in nodes && a !in nodes' ==> a in lists && lists[a] == [])
  }

  /** A relinking edit keeps the entry lists well formed and every entry
      attached, and it changes no rule. */
  lemma RelinkedStore<T>(nodes: map<nat, Node>, lists: map<nat, seq<nat>>, entries: map<nat, Entry<T>>,
                         nodes': map<nat, Node>, lists': map<nat, seq<nat>>)
    requires StoreOk(nodes, lists, entries) && Relinked(nodes, lists, nodes', lists')
    ensures StoreOk(nodes', lists', entries)
    ensures Rules(nodes', entries) == Rules(nodes, entries)
  {
    RelinkedLists(nodes, lists, entries, nodes', lists');
    forall x | x in entries
      ensures entries[x].node.Addr? && entries[x].node.a in nodes && entries[x].node.a in nodes'
      ensures RuleOf(nodes', entries, x) == RuleOf(nodes, entries, x)
    {
      assert Attached(nodes, lists, entries, x);
      assert Attached(nodes', lists', entries, x);
    }
  }

  /** The lists half of `RelinkedStore`. */
  lemma RelinkedLists<T>(nodes: map<nat, Node>, lists: map<nat, seq<nat>>, entries: map<nat, Entry<T>>,
                         nodes': map<nat, Node>, lists': map<nat, seq<nat>>)
    requires StoreOk(nodes, lists, entries) && Relinked(nodes, lists, nodes', lists')
    ensures StoreOk(nodes', lists', entries)
  {
    forall a | a in nodes' ensures ListAt(nodes', lists', entries, a) {
      if a in nodes {
        assert ListAt(nodes, lists, entries, a);
      }
    }
    forall x | x in entries ensures Attached(nodes', lists', entries, x) {
      assert Attached(nodes, lists, entries, x);
      var b := entries[x].node.a;
      assert x in lists[b];
    }
  }

  /** The entries `insert_entry` touches besides `x`: only the predecessor
      of `x` in `a`'s list, whose `next` field changes. */
  lemma SpliceLinksAt<T>(entries: map<nat, Entry<T>>, list: seq<nat>, x: nat, k: nat, y: nat)
    requires x in entries && k <= |list| && (k > 0 ==> list[k - 1] in entries)
    requires y in entries && y != x
    ensures y in SpliceLinks(entries, list, x, k)
    ensures var e := SpliceLinks(entries, list, x, k)[y];
            e.node == entries[y].node && e.priority == entries[y].priority && e.obj == entries[y].obj
    ensures (k == 0 || y != list[k - 1]) ==> SpliceLinks(entries, list, x, k)[y] == entries[y]
  {
  }

  /** `insert_entry` of a fresh entry keeps every node's list well formed:
      the target's by `SpliceInserted`, the others because none of their
      entries is touched. */
  lemma InsertedLists<T>(nodes: map<nat, Node>, lists: map<nat, seq<nat>>, entries: map<nat, Entry<T>>,
                         a: nat, x: nat,
                         nodes': map<nat, Node>, lists': map<nat, seq<nat>>, entries': map<nat, Entry<T>>)
    requires x in entries && entries[x].node == Null
    requires StoreOk(nodes, lists, entries - {x})
    requires Inserted(nodes, lists, entries, a, x, nodes', lists', entries')
    ensures forall b :: b in nodes' ==> ListAt(nodes', lists', entries', b)
  {
    var list := lists[a];
    var k := SplicePoint(Priorities(entries, list), entries[x].priority);
    var e1 := entries[x := entries[x].(node := Addr(a))];
    SpliceInserted(nodes, lists, entries, a, x);
    forall b | b in nodes' ensures ListAt(nodes', lists', entries', b) {
      if b != a {
        assert ListAt(nodes, lists, entries - {x}, b);
        forall y | y in lists[b] ensures y in entries' && entries'[y] == (entries - {x})[y] {
          var i :| 0 <= i < |lists[b]| && lists[b][i] == y;
          assert LinkOk(entries - {x}, b, lists[b], i);
          if k > 0 {
            assert LinkOk(entries, a, list, k - 1);
          }
          SpliceLinksAt(e1, list, x, k, y);
        }
        ListOkFrame(entries - {x}, entries', b, nodes[b].entries, lists[b]);
      }
    }
  }

  /** `insert_entry` of a fresh entry leaves every entry attached: the new
      one to the target node, the others where they were. */
  lemma InsertedAttached<T>(nodes: map<nat, Node>, lists: map<nat, seq<nat>>, entries: map<nat, Entry<T>>,
                            a: nat, x: nat,
                            nodes': map<nat, Node>, lists': map<nat, seq<nat>>, entries': map<nat, Entry<T>>)
    requires x in entries && entries[x].node == Null
    requires StoreOk(nodes, lists, entries - {x})
    requires Inserted(nodes, lists, entries, a, x, nodes', lists', entries')
    ensures forall y :: y in entries' ==> Attached(nodes', lists', entries', y)
  {
    var list := lists[a];
    var k := SplicePoint(Priorities(entries, list), entries[x].priority);
    var e1 := entries[x := entries[x].(node := Addr(a))];
    SpliceInserted(nodes, lists, entries, a, x);
    SpliceContents(list, k, x);
    forall y | y in entries' ensures Attached(nodes', lists', entries', y) {
      if y == x {
        assert x in multiset(lists'[a]);
      } else {
        assert Attached(nodes, lists, entries - {x}, y);
        SpliceLinksAt(e1, list, x, k, y);
        if entries[y].node == Addr(a) {
          assert y in multiset(list);
          assert y in multiset(lists'[a]);
        }
      }
    }
  }

  /** `insert_entry` of a fresh entry `x` into node `a` adds exactly the
      rule of `x` on `a`'s pattern and changes no other rule. */
  lemma InsertedRules<T>(nodes: map<nat, Node>, lists: map<nat, seq<nat>>, entries: map<nat, Entry<T>>,
                         a: nat, x: nat,
                         nodes': map<nat, Node>, lists': map<nat, seq<nat>>, entries': map<nat, Entry<T>>)
    requires x in entries && entries[x].node == Null
    requires StoreOk(nodes, lists, entries - {x})
    requires Inserted(nodes, lists, entries, a, x, nodes', lists', entries')
    ensures Rules(nodes', entries') ==
            Rules(nodes, entries)[x := Rule(nodes[a].data, nodes[a].mask, entries[x].priority, entries[x].obj)]
  {
    var list := lists[a];
    var k := SplicePoint(Priorities(entries, list), entries[x].priority);
    var e1 := entries[x := entries[x].(node := Addr(a))];
    SpliceInserted(nodes, lists, entries, a, x);
    var R := Rules(nodes, entries);
    var R' := Rules(nodes', entries');
    forall y | y in entries && y != x
      ensures y in entries' && entries'[y].node == entries[y].node &&
              entries'[y].priority == entries[y].priority && entries'[y].obj == entries[y].obj
    {
      SpliceLinksAt(e1, list, x, k, y);
    }
    assert entries'.Keys == entries.Keys;
    assert R'.Keys == R.Keys + {x};
    forall y | y in R ensures R'[y] == R[y] {
    }
  }

  /** `insert_entry` of a fresh, unattached entry `x` into node `a` keeps the
      entry lists well formed and every entry attached, and adds exactly
      the rule of `x` on `a`'s pattern. */
  lemma InsertedStore<T>(nodes: map<nat, Node>, lists: map<nat, seq<nat>>, entries: map<nat, Entry<T>>,
                         a: nat, x: nat,
                         nodes': map<nat, Node>, lists': map<nat, seq<nat>>, entries': map<nat, Entry<T>>)
    requires x in entries && entries[x].node == Null
    requires StoreOk(nodes, lists, entries - {x})
    requires Inserted(nodes, lists, entries, a, x, nodes', lists', entries')
    ensures StoreOk(nodes', lists', entries')
    ensures Rules(nodes', entries') ==
            Rules(nodes, entries)[x := Rule(nodes[a].data, nodes[a].mask, entries[x].priority, entries[x].obj)]
  {
    InsertedLists(nodes, lists, entries, a, x, nodes', lists', entries');
    InsertedAttached(nodes, lists, entries, a, x, nodes', lists', entries');
    InsertedRules(nodes, lists, entries, a, x, nodes', lists', entries');
  }

  /** The entries `erase_entry` leaves besides the freed one: only the
      predecessor's `next` field changes. */
  lemma RemoveLinksAt<T>(entries: map<nat, Entry<T>>, list: seq<nat>, k: nat, y: nat)
    requires k < |list| && y in entries && y != list[k]
    ensures y in RemoveLinks(entries, list, k)
    ensures var e := RemoveLinks(entries, list, k)[y];
            e.node == entries[y].node && e.priority == entries[y].priority && e.obj == entries[y].obj
    ensures (k == 0 || y != list[k - 1]) ==> RemoveLinks(entries, list, k)[y] == entries[y]
  {
  }

  /** An element other than the removed one stays in the list. */
  lemma StaysIn<X>(s: seq<X>, k: nat, y: X)
    requires k < |s| && y in s && y != s[k]
    ensures y in RemoveAt(s, k)
  {
    RemoveAtContents(s, k);
    assert y in multiset(s);
  }

  /** `erase_entry` keeps every remaining node's list well formed. */
  lemma ErasedLists<T>(nodes: map<nat, Node>, lists: map<nat, seq<nat>>, entries: map<nat, Entry<T>>,
                       a: nat, x: nat,
                       nodes': map<nat, Node>, lists': map<nat, seq<nat>>, entries': map<nat, Entry<T>>)
    requires StoreOk(nodes, lists, entries)
    requires Erased(nodes, lists, entries, a, x, nodes', lists', entries')
    ensures forall b :: b in nodes' ==> ListAt(nodes', lists', entries', b)
  {
    var list := lists[a];
    var k := IndexOf(list, x);
    assert ListAt(nodes, lists, entries, a);
    RemoveErased(nodes, lists, entries, a, k);
    forall b | b in nodes' ensures ListAt(nodes', lists', entries', b) {
      if b != a {
        assert ListAt(nodes, lists, entries, b);
        forall y | y in lists[b] ensures y in entries' && entries'[y] == entries[y] {
          var i :| 0 <= i < |lists[b]| && lists[b][i] == y;
          assert LinkOk(entries, b, lists[b], i);
          assert LinkOk(entries, a, list, k);
          if k > 0 {
            assert LinkOk(entries, a, list, k - 1);
          }
          RemoveLinksAt(entries, list, k, y);
        }
        ListOkFrame(entries, entries', b, nodes[b].entries, lists[b]);
      }
    }
  }

  /** `erase_entry` leaves every remaining entry attached where it was. */
  lemma ErasedAttached<T>(nodes: map<nat, Node>, lists: map<nat, seq<nat>>, entries: map<nat, Entry<T>>,
                          a: nat, x: nat,
                          nodes': map<nat, Node>, lists': map<nat, seq<nat>>, entries': map<nat, Entry<T>>)
    requires StoreOk(nodes, lists, entries)
    requires Erased(nodes, lists, entries, a, x, nodes', lists', entries')
    ensures forall y :: y in entries' ==> Attached(nodes', lists', entries', y)
  {
    var list := lists[a];
    var k := IndexOf(list, x);
    assert ListAt(nodes, lists, entries, a);
    RemoveErased(nodes, lists, entries, a, k);
    forall y | y in entries' ensures Attached(nodes', lists', entries', y) {
      assert y != x;
      assert Attached(nodes, lists, entries, y);
      RemoveLinksAt(entries, list, k, y);
      if entries[y].node == Addr(a) {
        StaysIn(list, k, y);
      }
    }
  }

  /** `erase_entry` of entry `x` removes exactly the rule of `x`. */
  lemma ErasedRules<T>(nodes: map<nat, Node>, lists: map<nat, seq<nat>>, entries: map<nat, Entry<T>>,
                       a: nat, x: nat,
                       nodes': map<nat, Node>, lists': map<nat, seq<nat>>, entries': map<nat, Entry<T>>)
    requires StoreOk(nodes, lists, entries)
    requires Erased(nodes, lists, entries, a, x, nodes', lists', entries')
    ensures Rules(nodes', entries') == Rules(nodes, entries) - {x}
  {
    ErasedKept(nodes, lists, entries, a, x, nodes', lists', entries');
    var R := Rules(nodes, entries);
    var R' := Rules(nodes', entries');
    assert R'.Keys == R.Keys - {x};
    forall y | y in R' ensures R'[y] == R[y] {
    }
  }

  /** `erase_entry` of the live entry `x` from node `a` frees `x` and keeps
      every other entry's node, priority and object. */
  lemma ErasedKept<T>(nodes: map<nat, Node>, lists: map<nat, seq<nat>>, entries: map<nat, Entry<T>>,
                      a: nat, x: nat,
                      nodes': map<nat, Node>, lists': map<nat, seq<nat>>, entries': map<nat, Entry<T>>)
    requires StoreOk(nodes, lists, entries)
    requires Erased(nodes, lists, entries, a, x, nodes', lists', entries')
    ensures x in entries && x !in entries' && nodes'.Keys == nodes.Keys
    ensures forall y :: y in entries && y != x ==>
              y in entries' && entries'[y].node == entries[y].node &&
              entries'[y].priority == entries[y].priority && entries'[y].obj == entries[y].obj
  {
    var list := lists[a];
    var k := IndexOf(list, x);
    assert ListAt(nodes, lists, entries, a);
    RemoveErased(nodes, lists, entries, a, k);
    assert x in entries by {
      assert LinkOk(entries, a, list, k);
    }
    forall y | y in entries && y != x
      ensures y in entries' && entries'[y].node == entries[y].node &&
              entries'[y].priority == entries[y].priority && entries'[y].obj == entries[y].obj
    {
      RemoveLinksAt(entries, list, k, y);
    }
  }

  /** `erase_entry` of entry `x` from node `a` keeps the entry lists well
      formed and every entry attached, and removes exactly the rule of `x`. */
  lemma ErasedStore<T>(nodes: map<nat, Node>, lists: map<nat, seq<nat>>, entries: map<nat, Entry<T>>,
                       a: nat, x: nat,
                       nodes': map<nat, Node>, lists': map<nat, seq<nat>>, entries': map<nat, Entry<T>>)
    requires StoreOk(nodes, lists, entries)
    requires Erased(nodes, lists, entries, a, x, nodes', lists', entries')
    ensures StoreOk(nodes', lists', entries')
    ensures Rules(nodes', entries') == Rules(nodes, entries) - {x}
  {
    ErasedLists(nodes, lists, entries, a, x, nodes', lists', entries');
    ErasedAttached(nodes, lists, entries, a, x, nodes', lists', entries');
    ErasedRules(nodes, lists, entries, a, x, nodes', lists', entries');
  }

  /** An entry that hangs on no node stands for no rule. */
  lemma UnattachedRules<T>(nodes: map<nat, Node>, entries: map<nat, Entry<T>>, x: nat)
    requires x in entries && entries[x].node == Null
    ensures Rules(nodes, entries - {x}) == Rules(nodes, entries)
  {
    var R := Rules(nodes, entries);
    var R' := Rules(nodes, entries - {x});
    assert R'.Keys == R.Keys;
  }

  /** A new node with an empty list, holding the fresh entry `x` after
      `insert_entry`, heads a one-entry list, and the rules gain exactly
      the rule of `x` on the node's pattern. */
  lemma LeafInserted<T>(nodes: map<nat, Node>, lists: map<nat, seq<nat>>, entries: map<nat, Entry<T>>,
                        leaf: nat, n: Node, x: nat,
                        nodes': map<nat, Node>, lists': map<nat, seq<nat>>, entries': map<nat, Entry<T>>)
    requires x in entries && entries[x].node == Null && leaf !in nodes && n.entries == Null
    requires StoreOk(nodes, lists, entries - {x})
    requires Inserted(nodes[leaf := n], lists[leaf := []], entries, leaf, x, nodes', lists', entries')
    ensures nodes' == nodes[leaf := n.(entries := Addr(x))]
    ensures x in entries' && entries'[x].node == Addr(leaf)
    ensures StoreOk(nodes', lists', entries')
    ensures Rules(nodes', entries') == Rules(nodes, entries)[x := Rule(n.data, n.mask, entries[x].priority, entries[x].obj)]
  {
    var nodes1, lists1 := nodes[leaf := n], lists[leaf := []];
    forall a | a in nodes ensures a in lists {
      assert ListAt(nodes, lists, entries - {x}, a);
    }
    RelinkedStore(nodes, lists, entries - {x}, nodes1, lists1);
    UnattachedRules(nodes, entries, x);
    UnattachedRules(nodes1, entries, x);
    InsertedStore(nodes1, lists1, entries, leaf, x, nodes', lists', entries');
    assert lists'[leaf] == [x];
  }

  /** While a fresh entry `x` hangs nowhere yet, every node's list is well
      formed with `x` present in the heap, and `x` is in none of them. */
  lemma ListWithout<T>(nodes: map<nat, Node>, lists: map<nat, seq<nat>>, entries: map<nat, Entry<T>>, x: nat, a: nat)
    requires x in entries && StoreOk(nodes, lists, entries - {x}) && a in nodes
    ensures a in lists && ListOk(entries, a, nodes[a].entries, lists[a]) && x !in lists[a]
  {
    assert ListAt(nodes, lists, entries - {x}, a);
    ListOkFrame(entries - {x}, entries, a, nodes[a].entries, lists[a]);
  }

  /** Attaching a new leaf below the nearest node relinks nodes only: the
      trie keeps its invariant and the entry lists and rules are as they
      were with the leaf unlinked. */
  lemma AttachStore<T>(size: nat, root: Ptr, nodes: map<nat, Node>, p: nat, leaf: nat, l: Node,
                       lists: map<nat, seq<nat>>, entries: map<nat, Entry<T>>)
    requires AttachPre(size, root, nodes, p, leaf, l)
    requires StoreOk(nodes[leaf := l], lists, entries)
    ensures var nodes' := WithLeaf(nodes, p, leaf, l);
            TreeOk(size, root, nodes') && StoreOk(nodes', lists, entries) &&
            Rules(nodes', entries) == Rules(nodes[leaf := l], entries)
  {
    var nodes1 := nodes[leaf := l];
    forall a | a in nodes1 ensures a in lists {
      assert ListAt(nodes1, lists, entries, a);
    }
    AttachOk(size, root, nodes, p, leaf, l);
    RelinkedStore(nodes1, lists, entries, WithLeaf(nodes, p, leaf, l), lists);
  }

  /** `insert_between` changes links only, and the branching node it adds
      has no entries. */
  lemma BetweenRelinked(size: nat, root: Ptr, nodes: map<nat, Node>, less: Ptr, more: nat,
                        leaf: nat, l: Node, t: nat, tdata: Bits, tmask: Bits, d: nat,
                        lists: map<nat, seq<nat>>)
    requires BetweenPre(size, root, nodes, less, more, leaf, l, t, tdata, tmask, d)
    requires forall a :: a in nodes[leaf := l] ==> a in lists
    ensures Relinked(nodes[leaf := l], lists, Between(size, root, nodes, less, more, leaf, l, t, tdata, tmask, d),
                     lists[t := []])
  {
    var nodes1 := nodes[leaf := l];
    var nodes' := Between(size, root, nodes, less, more, leaf, l, t, tdata, tmask, d);
    assert nodes'.Keys == nodes1.Keys + {t};
    forall a | a in nodes1 && a in nodes'
      ensures nodes'[a].data == nodes1[a].data && nodes'[a].mask == nodes1[a].mask &&
              nodes'[a].entries == nodes1[a].entries
    {
    }
  }

  /** Unlinking an entry only moves the head pointer of its node. */
  lemma ErasedShrunk<T>(nodes: map<nat, Node>, lists: map<nat, seq<nat>>, entries: map<nat, Entry<T>>,
                        a: nat, x: nat,
                        nodes': map<nat, Node>, lists': map<nat, seq<nat>>, entries': map<nat, Entry<T>>)
    requires Erased(nodes, lists, entries, a, x, nodes', lists', entries')
    ensures Shrunk(nodes, nodes')
  {
  }

  /** `insert_between` relinks nodes and adds the branching node `t` with
      an empty list: the trie keeps its invariant and the entry lists and
      rules are as they were with the leaf unlinked. */
  lemma BetweenStore<T>(size: nat, root: Ptr, nodes: map<nat, Node>, less: Ptr, more: nat,
                        leaf: nat, l: Node, t: nat, tdata: Bits, tmask: Bits, d: nat,
                        lists: map<nat, seq<nat>>, entries: map<nat, Entry<T>>)
    requires TreeOk(size, root, nodes)
    requires BetweenPre(size, root, nodes, less, more, leaf, l, t, tdata, tmask, d)
    requires StoreOk(nodes[leaf := l], lists, entries)
    ensures var n1 := nodes[leaf := l][t := Node(tdata, tmask, d, Null, Null, Null, Null, Null)];
            CanHang(n1, t, more) && CanHang(n1, t, leaf) && (less.Addr? ==> CanHang(n1, less.a, t)) &&
            var nodes' := BranchLinks(n1, less, t, more, leaf);
            TreeOk(size, if less.Addr? then root else Addr(t), nodes') &&
            StoreOk(nodes', lists[t := []], entries) &&
            Rules(nodes', entries) == Rules(nodes[leaf := l], entries)
  {
    var nodes1 := nodes[leaf := l];
    forall a | a in nodes1 ensures a in lists {
      assert ListAt(nodes1, lists, entries, a);
    }
    BetweenOk(size, root, nodes, less, more, leaf, l, t, tdata, tmask, d);
    BetweenHung(size, root, nodes, less, more, leaf, l, t, tdata, tmask, d);
    BetweenRelinked(size, root, nodes, less, more, leaf, l, t, tdata, tmask, d, lists);
    RelinkedStore(nodes1, lists, entries, Between(size, root, nodes, less, more, leaf, l, t, tdata, tmask, d), lists[t := []]);
  }

  /** `erase_node(n)` below a parent frees `n`, whose list is empty, and
      clears the parent's slot: the trie invariant holds with the parent
      excused exactly when it is left without children, and the lists and
      rules are as they were. */
  lemma DetachStore<T>(size: nat, root: Ptr, nodes: map<nat, Node>, n: nat,
                       lists: map<nat, seq<nat>>, entries: map<nat, Entry<T>>)
    requires DetachPre(size, root, nodes, n) && StoreOk(nodes, lists, entries)
    ensures var nodes' := Detached(size, root, nodes, n);
            var p := nodes[n].parent.a;
            p in nodes' &&
            TreeOkBut(size, root, nodes', if Occupied(size, nodes'[p]) then Null else Addr(p)) &&
            StoreOk(nodes', lists - {n}, entries) &&
            Rules(nodes', entries) == Rules(nodes, entries)
  {
    forall a | a in nodes ensures a in lists {
      assert ListAt(nodes, lists, entries, a);
    }
    assert ListAt(nodes, lists, entries, n);
    DetachOk(size, root, nodes, n);
    var nodes' := Detached(size, root, nodes, n);
    assert NodeOk(size, root, nodes, n);
    assert nodes'.Keys == nodes.Keys - {n};
    forall a | a in nodes'
      ensures nodes'[a].data == nodes[a].data && nodes'[a].mask == nodes[a].mask &&
              nodes'[a].entries == nodes[a].entries
    {
    }
    RelinkedStore(nodes, lists, entries, nodes', lists - {n});
  }

  /** `erase_node` on the root, the last node: freeing it, with its empty
      list, leaves no nodes and the same (empty) set of rules. */
  lemma LastStore<T>(nodes: map<nat, Node>, n: nat, lists: map<nat, seq<nat>>, entries: map<nat, Entry<T>>)
    requires StoreOk(nodes, lists, entries) && n in nodes && nodes[n].entries == Null
    ensures StoreOk(nodes - {n}, lists - {n}, entries)
    ensures Rules(nodes - {n}, entries) == Rules(nodes, entries)
  {
    forall a | a in nodes ensures a in lists {
      assert ListAt(nodes, lists, entries, a);
    }
    assert ListAt(nodes, lists, entries, n);
    RelinkedStore(nodes, lists, entries, nodes - {n}, lists - {n});
  }
}
