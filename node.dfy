/** `soft_tcam_node`: one (data, mask, position) segment of the ternary trie,
    with its three child slots, its parent back-reference and the head of its
    singly linked entry list. Every live node is a record in a `NodeStore`,
    which stands for the heap of `soft_tcam_node` objects together with the
    class's static allocation counter. */
module TcamNode {
  import opened Common
  import opened TcamEntry
  import opened EntryList

  /** The fields of one node. `data`, `mask` and `position` are fixed at
      construction; the access counter is kept in `NodeStore.counters`. */
  datatype Node = Node(data: Bits, mask: Bits, position: nat,
                       n0: Ptr, n1: Ptr, ndc: Ptr, parent: Ptr, entries: Ptr)

  /** The child pointer held in slot `s`. */
  function Child(n: Node, s: Slot): Ptr
  {
    match s
    case Zero => n.n0
    case One => n.n1
    case DontCare => n.ndc
  }

  /** The pointer to the `k`-th entry of a list, nullptr past its end. */
  function PtrAt(list: seq<nat>, k: nat): Ptr
  {
    if k < |list| then Addr(list[k]) else Null
  }

  /** Every entry of `list` is live. */
  ghost predicate Live<T>(entries: map<nat, Entry<T>>, list: seq<nat>)
  {
    forall i :: 0 <= i < |list| ==> list[i] in entries
  }

  /** The `i`-th entry of `list` is live, points back to node `a` and links
      to its successor in `list` (nullptr after the last one). */
  ghost predicate LinkOk<T>(entries: map<nat, Entry<T>>, a: nat, list: seq<nat>, i: nat)
  {
    i < |list| && list[i] in entries && entries[list[i]].node == Addr(a) &&
    entries[list[i]].next == PtrAt(list, i + 1)
  }

  /** The `next` links and back-references of the entries of `list`. */
  ghost predicate Linked<T>(entries: map<nat, Entry<T>>, a: nat, list: seq<nat>)
  {
    forall i :: 0 <= i < |list| ==> LinkOk(entries, a, list, i)
  }

  /** `list` is the entry list of node `a` whose head pointer is `head`: the
      head and the `next` links spell out `list`, each entry points back to
      `a`, no entry occurs twice and priorities never increase. */
  ghost predicate ListOk<T>(entries: map<nat, Entry<T>>, a: nat, head: Ptr, list: seq<nat>)
  {
    head == PtrAt(list, 0) && Live(entries, list) && Linked(entries, a, list) && Distinct(list) &&
    SortedDesc(Priorities(entries, list))
  }

  /** The entries after `insert_entry` has spliced entry `x` in at index `k`:
      `x` points at the entry that followed its predecessor, and the
      predecessor (if any) points at `x`. */
  function SpliceLinks<T>(entries: map<nat, Entry<T>>, list: seq<nat>, x: nat, k: nat): map<nat, Entry<T>>
    requires x in entries && k <= |list|
    requires k > 0 ==> list[k - 1] in entries
  {
    var e1 := entries[x := entries[x].(next := PtrAt(list, k))];
    if k == 0 then e1 else e1[list[k - 1] := e1[list[k - 1]].(next := Addr(x))]
  }

  /** The entries after `erase_entry` has unlinked and freed the `k`-th entry
      of `list`: its predecessor (if any) points at its successor. */
  function RemoveLinks<T>(entries: map<nat, Entry<T>>, list: seq<nat>, k: nat): map<nat, Entry<T>>
    requires k < |list|
  {
    var e1 := entries - {list[k]};
    if k == 0 || list[k - 1] !in e1 then e1
    else e1[list[k - 1] := e1[list[k - 1]].(next := PtrAt(list, k + 1))]
  }

  /** A list stays well formed when none of its entries is touched. */
  lemma ListOkFrame<T>(entries: map<nat, Entry<T>>, entries': map<nat, Entry<T>>, a: nat, head: Ptr, list: seq<nat>)
    requires ListOk(entries, a, head, list)
    requires forall y :: y in list ==> y in entries' && entries'[y] == entries[y]
    ensures ListOk(entries', a, head, list)
    ensures Priorities(entries', list) == Priorities(entries, list)
  {
    forall i | 0 <= i < |list|
      ensures list[i] in entries' && LinkOk(entries', a, list, i)
    {
      assert list[i] in list && LinkOk(entries, a, list, i);
    }
  }

  /** Splicing relinks exactly the new entry and its predecessor. */
  lemma LinkedSpliced<T>(entries: map<nat, Entry<T>>, a: nat, list: seq<nat>, x: nat, k: nat)
    requires Live(entries, list) && Linked(entries, a, list) && Distinct(list)
    requires x in entries && x !in list && entries[x].node == Addr(a) && k <= |list|
    ensures Linked(SpliceLinks(entries, list, x, k), a, Splice(list, k, x))
  {
    var list' := Splice(list, k, x);
    var e' := SpliceLinks(entries, list, x, k);
    forall i | 0 <= i < |list'|
      ensures LinkOk(e', a, list', i)
    {
      if i < |list| {
        assert LinkOk(entries, a, list, i);
      }
      if 0 < i <= |list| {
        assert LinkOk(entries, a, list, i - 1);
      }
      SpliceAt(list, k, x, i);
      if i + 1 <= |list| {
        SpliceAt(list, k, x, i + 1);
      }
      if i < k - 1 {
        assert list'[i] == list[i] != list[k - 1];
      } else if i == k - 1 {
        assert list'[i] == list[k - 1];
      } else if i > k {
        assert list'[i] == list[i - 1];
        assert k > 0 ==> list[i - 1] != list[k - 1];
      }
    }
  }

  /** Splicing relinks but does not change any priority. */
  lemma PrioritiesSpliced<T>(entries: map<nat, Entry<T>>, a: nat, list: seq<nat>, x: nat, k: nat)
    requires Live(entries, list) && Linked(entries, a, list) && x in entries && k <= |list|
    ensures var list' := Splice(list, k, x);
            Live(SpliceLinks(entries, list, x, k), list') &&
            Priorities(SpliceLinks(entries, list, x, k), list') ==
            Splice(Priorities(entries, list), k, entries[x].priority)
  {
    var list' := Splice(list, k, x);
    var e' := SpliceLinks(entries, list, x, k);
    forall i | 0 <= i < |list'|
      ensures list'[i] in e' && e'[list'[i]].priority == Splice(Priorities(entries, list), k, entries[x].priority)[i]
    {
      SpliceAt(list, k, x, i);
      SpliceAt(Priorities(entries, list), k, entries[x].priority, i);
    }
  }

  /** Splicing a new entry in at the splice point of its priority yields a
      well-formed list again. */
  lemma ListOkSpliced<T>(entries: map<nat, Entry<T>>, a: nat, list: seq<nat>, x: nat)
    requires ListOk(entries, a, PtrAt(list, 0), list)
    requires x in entries && x !in list && entries[x].node == Addr(a)
    ensures SplicePoint(Priorities(entries, list), entries[x].priority) <= |list|
    ensures var k := SplicePoint(Priorities(entries, list), entries[x].priority);
            var list' := Splice(list, k, x);
            ListOk(SpliceLinks(entries, list, x, k), a, PtrAt(list', 0), list')
  {
    var ps := Priorities(entries, list);
    var p := entries[x].priority;
    SpliceSorted(ps, p);
    var k := SplicePoint(ps, p);
    LinkedSpliced(entries, a, list, x, k);
    PrioritiesSpliced(entries, a, list, x, k);
    SpliceDistinct(list, k, x);
  }

  /** Unlinking drops exactly the removed entry and relinks its predecessor. */
  lemma LinkedRemoved<T>(entries: map<nat, Entry<T>>, a: nat, list: seq<nat>, k: nat)
    requires Live(entries, list) && Linked(entries, a, list) && Distinct(list) && k < |list|
    ensures Linked(RemoveLinks(entries, list, k), a, RemoveAt(list, k))
  {
    var list' := RemoveAt(list, k);
    var e' := RemoveLinks(entries, list, k);
    forall i | 0 <= i < |list'|
      ensures LinkOk(e', a, list', i)
    {
      assert LinkOk(entries, a, list, i) && LinkOk(entries, a, list, i + 1);
      RemoveAtAt(list, k, i);
      if i + 1 < |list'| {
        RemoveAtAt(list, k, i + 1);
      }
      if i < k - 1 {
        assert list'[i] == list[i] != list[k - 1];
        assert list[i] != list[k];
      } else if i == k - 1 {
        assert list'[i] == list[k - 1] != list[k];
      } else {
        assert list'[i] == list[i + 1] != list[k];
        assert k > 0 ==> list[i + 1] != list[k - 1];
      }
    }
  }

  /** Unlinking does not change any remaining priority. */
  lemma PrioritiesRemoved<T>(entries: map<nat, Entry<T>>, a: nat, list: seq<nat>, k: nat)
    requires Live(entries, list) && Linked(entries, a, list) && Distinct(list) && k < |list|
    ensures var list' := RemoveAt(list, k);
            Live(RemoveLinks(entries, list, k), list') &&
            Priorities(RemoveLinks(entries, list, k), list') == RemoveAt(Priorities(entries, list), k)
  {
    var list' := RemoveAt(list, k);
    var e' := RemoveLinks(entries, list, k);
    forall i | 0 <= i < |list'|
      ensures list'[i] in e' && e'[list'[i]].priority == RemoveAt(Priorities(entries, list), k)[i]
    {
      RemoveAtAt(list, k, i);
      RemoveAtAt(Priorities(entries, list), k, i);
      assert list'[i] != list[k];
    }
  }

  /** Unlinking the `k`-th entry yields a well-formed list again. */
  lemma ListOkRemoved<T>(entries: map<nat, Entry<T>>, a: nat, list: seq<nat>, k: nat)
    requires ListOk(entries, a, PtrAt(list, 0), list) && k < |list|
    ensures var list' := RemoveAt(list, k);
            ListOk(RemoveLinks(entries, list, k), a, PtrAt(list', 0), list')
  {
    RemoveSorted(Priorities(entries, list), k);
    LinkedRemoved(entries, a, list, k);
    PrioritiesRemoved(entries, a, list, k);
    RemoveDistinct(list, k);
  }

  /** The state `insert_entry` leaves behind: entry `x` points back at node
      `a` and sits in `a`'s list at the splice point of its priority, the
      head pointer of `a` names the new first entry, and no other node, list
      or entry changes beyond the two relinked `next` fields. */
  ghost predicate Inserted<T>(nodes: map<nat, Node>, lists: map<nat, seq<nat>>, entries: map<nat, Entry<T>>,
                              a: nat, x: nat,
                              nodes': map<nat, Node>, lists': map<nat, seq<nat>>, entries': map<nat, Entry<T>>)
  {
    a in nodes && a in lists && x in entries && x !in lists[a] &&
    ListOk(entries, a, nodes[a].entries, lists[a]) &&
    var list := lists[a];
    var k := SplicePoint(Priorities(entries, list), entries[x].priority);
    k <= |list| &&
    lists' == lists[a := Splice(list, k, x)] &&
    nodes' == nodes[a := nodes[a].(entries := PtrAt(lists'[a], 0))] &&
    entries' == SpliceLinks(entries[x := entries[x].(node := Addr(a))], list, x, k)
  }

  /** Splicing entry `x` into node `a`'s list at the splice point of its
      priority, after pointing it back at `a`, is a state `Inserted`
      describes, and it leaves `a`'s list well formed. */
  lemma SpliceInserted<T>(nodes: map<nat, Node>, lists: map<nat, seq<nat>>, entries: map<nat, Entry<T>>,
                          a: nat, x: nat)
    requires a in nodes && a in lists && x in entries && x !in lists[a]
    requires ListOk(entries, a, nodes[a].entries, lists[a])
    ensures var list := lists[a];
            var k := SplicePoint(Priorities(entries, list), entries[x].priority);
            var e1 := entries[x := entries[x].(node := Addr(a))];
            var list' := Splice(list, k, x);
            k <= |list| && (k > 0 ==> list[k - 1] in e1) &&
            Inserted(nodes, lists, entries, a, x,
                     nodes[a := nodes[a].(entries := PtrAt(list', 0))], lists[a := list'],
                     SpliceLinks(e1, list, x, k)) &&
            ListOk(SpliceLinks(e1, list, x, k), a, PtrAt(list', 0), list')
  {
    var list := lists[a];
    var e1 := entries[x := entries[x].(node := Addr(a))];
    ListOkFrame(entries, e1, a, nodes[a].entries, list);
    ListOkSpliced(e1, a, list, x);
    var k := SplicePoint(Priorities(entries, list), entries[x].priority);
    if k > 0 {
      assert LinkOk(entries, a, list, k - 1);
    }
  }

  /** The state `erase_entry` leaves behind after unlinking entry `x`, the
      `k`-th entry of node `a`'s list: the entry is freed, its predecessor
      (or the head pointer) skips it, and nothing else changes. */
  ghost predicate Erased<T>(nodes: map<nat, Node>, lists: map<nat, seq<nat>>, entries: map<nat, Entry<T>>,
                            a: nat, x: nat,
                            nodes': map<nat, Node>, lists': map<nat, seq<nat>>, entries': map<nat, Entry<T>>)
  {
    a in nodes && a in lists && x in lists[a] &&
    var list := lists[a];
    var k := IndexOf(list, x);
    lists' == lists[a := RemoveAt(list, k)] &&
    nodes' == nodes[a := nodes[a].(entries := PtrAt(lists'[a], 0))] &&
    entries' == RemoveLinks(entries, list, k)
  }

  /** Unlinking the `k`-th entry of node `a`'s list is a state `Erased`
      describes, and it leaves `a`'s list well formed; when the entry is not
      the head, the head pointer stays as it is. */
  lemma RemoveErased<T>(nodes: map<nat, Node>, lists: map<nat, seq<nat>>, entries: map<nat, Entry<T>>,
                        a: nat, k: nat)
    requires a in nodes && a in lists && k < |lists[a]|
    requires ListOk(entries, a, nodes[a].entries, lists[a])
    ensures var list := lists[a];
            var list' := RemoveAt(list, k);
            var nodes' := nodes[a := nodes[a].(entries := PtrAt(list', 0))];
            IndexOf(list, list[k]) == k &&
            Erased(nodes, lists, entries, a, list[k], nodes', lists[a := list'], RemoveLinks(entries, list, k)) &&
            ListOk(RemoveLinks(entries, list, k), a, PtrAt(list', 0), list') &&
            (k > 0 ==> nodes' == nodes)
  {
    var list := lists[a];
    ListOkRemoved(entries, a, list, k);
    var j := IndexOf(list, list[k]);
    assert j == k by {
      assert list[j] == list[k];
    }
    if k > 0 {
      assert RemoveAt(list, k)[0] == list[0];
      assert nodes[a := nodes[a].(entries := PtrAt(RemoveAt(list, k), 0))] == nodes;
    }
  }

  class NodeStore<T(==,0)> {
    /** The live nodes, by address. */
    var nodes: map<nat, Node>
    /** `m_access_counter` of each node. */
    const counters: AccessCounters
    /** `s_alloc_counter`: bumped by `operator new`, dropped by `operator delete`. */
    var allocCounter: nat
    /** Every address handed out so far is below this one. */
    var nextAddr: nat
    /** The entry list each node's `m_entries` heads, as a sequence of entry addresses. */
    ghost var lists: map<nat, seq<nat>>

    /** Every live node has a recorded entry list, the allocation counter
        counts exactly the live nodes, and no live node sits at an address
        that could be handed out again. */
    ghost predicate Valid()
      reads this
    {
      lists.Keys == nodes.Keys &&
      allocCounter == |nodes.Keys| &&
      forall a :: a in nodes ==> a < nextAddr
    }

    /** An empty heap: no node has been allocated yet. */
    constructor ()
      ensures Valid()
      ensures nodes == map[] && lists == map[] && allocCounter == 0
      ensures fresh(counters)
    {
      nodes := map[];
      counters := new AccessCounters();
      allocCounter := 0;
      nextAddr := 0;
      lists := map[];
    }

    /** `new soft_tcam_node(data, mask, position)`: a fresh node holding the
        given pattern and position, with every link null, no entries and a
        zero access counter; the allocation is counted. */
    method New(data: Bits, mask: Bits, position: nat) returns (a: nat)
      requires Valid()
      modifies this, counters
      ensures Valid()
      ensures a !in old(nodes)
      ensures nodes == old(nodes)[a := Node(data, mask, position, Null, Null, Null, Null, Null)]
      ensures lists == old(lists)[a := []]
      ensures counters.count == old(counters.count)[a := 0]
      ensures allocCounter == old(allocCounter) + 1
    {
      a := nextAddr;
      nextAddr := nextAddr + 1;
      nodes := nodes[a := Node(data, mask, position, Null, Null, Null, Null, Null)];
      lists := lists[a := []];
      counters.Reset(a);
      allocCounter := allocCounter + 1;
    }

    /** `delete node`: releases the node and uncounts it. */
    method Delete(a: nat)
      requires Valid() && a in nodes
      modifies this, counters
      ensures Valid()
      ensures nodes == old(nodes) - {a} && lists == old(lists) - {a}
      ensures counters.count == old(counters.count) - {a}
      ensures allocCounter == old(allocCounter) - 1
    {
      KeysRemove(nodes, a);
      nodes := nodes - {a};
      lists := lists - {a};
      counters.Drop(a);
      allocCounter := allocCounter - 1;
    }

    /** `get_data`. Like every getter, it returns the field and counts one
        access of the node, changing nothing else. */
    method GetData(a: nat) returns (data: Bits)
      requires a in nodes
      modifies counters
      ensures unchanged(this)
      ensures data == nodes[a].data
      ensures counters.count == old(counters.count)[a := Inc(old(counters.Of(a)))]
    {
      counters.Bump(a);
      data := nodes[a].data;
    }

    /** `get_mask`. */
    method GetMask(a: nat) returns (mask: Bits)
      requires a in nodes
      modifies counters
      ensures unchanged(this)
      ensures mask == nodes[a].mask
      ensures counters.count == old(counters.count)[a := Inc(old(counters.Of(a)))]
    {
      counters.Bump(a);
      mask := nodes[a].mask;
    }

    /** `get_position`. */
    method GetPosition(a: nat) returns (position: nat)
      requires a in nodes
      modifies counters
      ensures unchanged(this)
      ensures position == nodes[a].position
      ensures counters.count == old(counters.count)[a := Inc(old(counters.Of(a)))]
    {
      counters.Bump(a);
      position := nodes[a].position;
    }

    /** `get_n0`. */
    method GetN0(a: nat) returns (c: Ptr)
      requires a in nodes
      modifies counters
      ensures unchanged(this)
      ensures c == nodes[a].n0
      ensures counters.count == old(counters.count)[a := Inc(old(counters.Of(a)))]
    {
      counters.Bump(a);
      c := nodes[a].n0;
    }

    /** `get_n1`. */
    method GetN1(a: nat) returns (c: Ptr)
      requires a in nodes
      modifies counters
      ensures unchanged(this)
      ensures c == nodes[a].n1
      ensures counters.count == old(counters.count)[a := Inc(old(counters.Of(a)))]
    {
      counters.Bump(a);
      c := nodes[a].n1;
    }

    /** `get_ndc`. */
    method GetNdc(a: nat) returns (c: Ptr)
      requires a in nodes
      modifies counters
      ensures unchanged(this)
      ensures c == nodes[a].ndc
      ensures counters.count == old(counters.count)[a := Inc(old(counters.Of(a)))]
    {
      counters.Bump(a);
      c := nodes[a].ndc;
    }

    /** `get_parent`. */
    method GetParent(a: nat) returns (p: Ptr)
      requires a in nodes
      modifies counters
      ensures unchanged(this)
      ensures p == nodes[a].parent
      ensures counters.count == old(counters.count)[a := Inc(old(counters.Of(a)))]
    {
      counters.Bump(a);
      p := nodes[a].parent;
    }

    /** `get_entry_head`. */
    method GetEntryHead(a: nat) returns (e: Ptr)
      requires a in nodes
      modifies counters
      ensures unchanged(this)
      ensures e == nodes[a].entries
      ensures counters.count == old(counters.count)[a := Inc(old(counters.Of(a)))]
    {
      counters.Bump(a);
      e := nodes[a].entries;
    }

    /** `set_n0`. Like every setter, it changes that one field only and
        counts no access. */
    method SetN0(a: nat, c: Ptr)
      requires Valid() && a in nodes
      modifies this
      ensures Valid()
      ensures nodes == old(nodes)[a := old(nodes)[a].(n0 := c)]
      ensures lists == old(lists) && allocCounter == old(allocCounter)
    {
      nodes := nodes[a := nodes[a].(n0 := c)];
    }

    /** `set_n1`. */
    method SetN1(a: nat, c: Ptr)
      requires Valid() && a in nodes
      modifies this
      ensures Valid()
      ensures nodes == old(nodes)[a := old(nodes)[a].(n1 := c)]
      ensures lists == old(lists) && allocCounter == old(allocCounter)
    {
      nodes := nodes[a := nodes[a].(n1 := c)];
    }

    /** `set_ndc`. */
    method SetNdc(a: nat, c: Ptr)
      requires Valid() && a in nodes
      modifies this
      ensures Valid()
      ensures nodes == old(nodes)[a := old(nodes)[a].(ndc := c)]
      ensures lists == old(lists) && allocCounter == old(allocCounter)
    {
      nodes := nodes[a := nodes[a].(ndc := c)];
    }

    /** `set_parent`. */
    method SetParent(a: nat, c: Ptr)
      requires Valid() && a in nodes
      modifies this
      ensures Valid()
      ensures nodes == old(nodes)[a := old(nodes)[a].(parent := c)]
      ensures lists == old(lists) && allocCounter == old(allocCounter)
    {
      nodes := nodes[a := nodes[a].(parent := c)];
    }

    /** `get_alloc_counter`: the number of live nodes. */
    method GetAllocCounter() returns (n: nat)
      requires Valid()
      ensures n == |nodes.Keys|
    {
      n := allocCounter;
    }

    /** `insert_entry`: a null entry is refused with -1 and nothing changes.
        Otherwise the entry is pointed back at node `a` and spliced into its
        list at the splice point of its priority (the head only when the list
        is empty or the new priority is strictly greater than the head's,
        else after every entry of greater or equal priority); the list stays
        well formed and nothing else changes. */
    method InsertEntry(a: nat, e: Ptr, es: EntryStore<T>) returns (r: int)
      requires Valid() && es.Valid() && a in nodes
      requires ListOk(es.entries, a, nodes[a].entries, lists[a])
      requires e.Addr? ==> e.a in es.entries && e.a !in lists[a]
      modifies this, es, es.counters
      ensures Valid() && es.Valid()
      ensures allocCounter == old(allocCounter) && es.allocCounter == old(es.allocCounter)
      ensures r == -1 <==> e == Null
      ensures r == -1 ==> nodes == old(nodes) && lists == old(lists) && es.entries == old(es.entries)
      ensures r != -1 ==> Inserted(old(nodes), old(lists), old(es.entries), a, e.a, nodes, lists, es.entries)
      ensures r != -1 ==> ListOk(es.entries, a, nodes[a].entries, lists[a])
      ensures r == -1 ==> es.counters.count == old(es.counters.count)
      ensures e.Addr? ==> OnlyCountedIn(old(es.counters.count), es.counters.count, Elems(old(lists[a])) + {e.a})
    {
      if e == Null {
        return -1;
      }
      var x := e.a;
      ghost var list := lists[a];
      ghost var entries0 := es.entries;
      SpliceInserted(nodes, lists, entries0, a, x);
      es.SetNode(x, Addr(a));
      ListOkFrame(entries0, es.entries, a, nodes[a].entries, list);
      Link(a, x, es);
      return 0;
    }

    /** The splice of `insert_entry`, once entry `x` points back at node
        `a`: the head when the list is empty or `x`'s priority is strictly
        greater than the head's, otherwise after the entry the walk stops
        behind. */
    method Link(a: nat, x: nat, es: EntryStore<T>)
      requires Valid() && es.Valid() && a in nodes
      requires x in es.entries && x !in lists[a] && es.entries[x].node == Addr(a)
      requires ListOk(es.entries, a, nodes[a].entries, lists[a])
      modifies this, es, es.counters
      ensures Valid() && es.Valid()
      ensures allocCounter == old(allocCounter) && es.allocCounter == old(es.allocCounter)
      ensures var list := old(lists[a]);
              var k := SplicePoint(Priorities(old(es.entries), list), old(es.entries[x].priority));
              k <= |list| && (k > 0 ==> list[k - 1] in old(es.entries)) &&
              lists == old(lists)[a := Splice(list, k, x)] &&
              nodes == old(nodes)[a := old(nodes)[a].(entries := PtrAt(lists[a], 0))] &&
              es.entries == SpliceLinks(old(es.entries), list, x, k)
      ensures OnlyCountedIn(old(es.counters.count), es.counters.count, Elems(old(lists[a])) + {x})
    {
      ghost var list := lists[a];
      ghost var entries0 := es.entries;
      ghost var ps := Priorities(entries0, list);
      ghost var k := SplicePoint(ps, entries0[x].priority);
      SpliceSorted(ps, entries0[x].priority);
      SplicePointHead(ps, entries0[x].priority);
      var head := nodes[a].entries;
      var better := false;
      if head != Null {
        assert LinkOk(entries0, a, list, 0);
        var ep := es.GetPriority(x);
        var hp := es.GetPriority(head.a);
        better := ep > hp;
      }
      if head == Null || better {
        es.SetNext(x, head);
        assert (es as object) != this;
        SetHead(a, Addr(x), Splice(list, k, x));
      } else {
        var prev := ScanSplicePoint(a, x, es);
        assert LinkOk(entries0, a, list, k - 1);
        var next := es.GetNext(prev);
        es.SetNext(x, next);
        es.SetNext(prev, Addr(x));
        assert (es as object) != this;
        SetHead(a, head, Splice(list, k, x));
      }
    }

    /** `m_entries = head` on node `a`, together with the entry list that head
        now starts. */
    method SetHead(a: nat, head: Ptr, ghost list: seq<nat>)
      requires Valid() && a in nodes
      modifies this
      ensures Valid()
      ensures nodes == old(nodes)[a := old(nodes)[a].(entries := head)]
      ensures lists == old(lists)[a := list]
      ensures allocCounter == old(allocCounter)
    {
      nodes := nodes[a := nodes[a].(entries := head)];
      lists := lists[a := list];
    }

    /** The `prev`/`curr` walk of `insert_entry` when the new entry does not
        go to the head: it returns the entry after which the new one belongs,
        the one just before the splice point. */
    method ScanSplicePoint(a: nat, x: nat, es: EntryStore<T>) returns (prev: nat)
      requires Valid() && a in nodes && x in es.entries
      requires ListOk(es.entries, a, nodes[a].entries, lists[a])
      requires var ps := Priorities(es.entries, lists[a]);
               |ps| > 0 && es.entries[x].priority <= ps[0]
      modifies es.counters
      ensures var list := lists[a];
              var k := SplicePoint(Priorities(es.entries, list), es.entries[x].priority);
              0 < k <= |list| && prev == list[k - 1]
      ensures OnlyCountedIn(old(es.counters.count), es.counters.count, Elems(lists[a]) + {x})
    {
      ghost var list := lists[a];
      ghost var ps := Priorities(es.entries, list);
      ghost var p := es.entries[x].priority;
      ghost var c0 := es.counters.count;
      prev := nodes[a].entries.a;
      assert LinkOk(es.entries, a, list, 0);
      var curr := es.GetNext(prev);
      ghost var i := 1;
      while curr != Null
        invariant 1 <= i <= |list| && prev == list[i - 1] && curr == PtrAt(list, i)
        invariant ScanFrom(ps, p, 1) == ScanFrom(ps, p, i)
        invariant OnlyCountedIn(c0, es.counters.count, Elems(list) + {x})
        decreases |list| - i
      {
        var cp := es.GetPriority(curr.a);
        var ep := es.GetPriority(x);
        if cp < ep {
          break;
        }
        assert LinkOk(es.entries, a, list, i);
        prev := curr.a;
        curr := es.GetNext(curr.a);
        i := i + 1;
      }
    }

    /** `erase_entry`: refused with -1, changing nothing, when the list is
        empty, the entry is null or it is not in node `a`'s list. Otherwise
        the entry is unlinked (the rest of the list keeps its order), its
        links are cleared, it is freed and the list stays well formed. */
    method EraseEntry(a: nat, e: Ptr, es: EntryStore<T>) returns (r: int)
      requires Valid() && es.Valid() && a in nodes
      requires ListOk(es.entries, a, nodes[a].entries, lists[a])
      modifies this, es, es.counters
      ensures Valid() && es.Valid()
      ensures allocCounter == old(allocCounter)
      ensures r == 0 || r == -1
      ensures r == 0 <==> e.Addr? && e.a in old(lists[a])
      ensures r == -1 ==> nodes == old(nodes) && lists == old(lists) &&
                          es.entries == old(es.entries) && es.allocCounter == old(es.allocCounter)
      ensures r == 0 ==> Erased(old(nodes), old(lists), old(es.entries), a, e.a, nodes, lists, es.entries)
      ensures r == 0 ==> es.allocCounter == old(es.allocCounter) - 1
      ensures r == 0 ==> ListOk(es.entries, a, nodes[a].entries, lists[a])
      ensures OnlyCountedIn(old(es.counters.count), es.counters.count, Elems(old(lists[a])))
    {
      ghost var list := lists[a];
      ghost var c0 := es.counters.count;
      var head := nodes[a].entries;
      if head == Null || e == Null {
        return -1;
      }
      var x := e.a;
      assert LinkOk(es.entries, a, list, 0);
      if head == e {
        RemoveErased(nodes, lists, es.entries, a, 0);
        var next := es.GetNext(x);
        SetHead(a, next, RemoveAt(list, 0));
        Unlink(x, es);
        return 0;
      }
      var prev := head.a;
      var curr := es.GetNext(prev);
      ghost var i := 1;
      while curr != Null
        invariant unchanged(this) && unchanged(es)
        invariant 1 <= i <= |list| && prev == list[i - 1] && curr == PtrAt(list, i)
        invariant forall j :: 0 <= j < i ==> list[j] != x
        invariant OnlyCountedIn(c0, es.counters.count, Elems(list))
        decreases |list| - i
      {
        if curr == e {
          RemoveErased(nodes, lists, es.entries, a, i);
          UnlinkAfter(a, prev, x, i, es);
          return 0;
        }
        assert LinkOk(es.entries, a, list, i);
        prev := curr.a;
        curr := es.GetNext(curr.a);
        i := i + 1;
      }
      return -1;
    }

    /** The unlinking step of `erase_entry` for the `k`-th entry `x` of node
        `a`'s list when it is not the head: its predecessor `prev` takes over
        its `next` pointer, and `x` is cleared and freed. */
    method UnlinkAfter(a: nat, prev: nat, x: nat, ghost k: nat, es: EntryStore<T>)
      requires Valid() && es.Valid() && a in nodes
      requires ListOk(es.entries, a, nodes[a].entries, lists[a])
      requires 0 < k < |lists[a]| && prev == lists[a][k - 1] && x == lists[a][k]
      modifies this, es, es.counters
      ensures Valid() && es.Valid()
      ensures allocCounter == old(allocCounter) && nodes == old(nodes)
      ensures lists == old(lists)[a := RemoveAt(old(lists[a]), k)]
      ensures es.entries == RemoveLinks(old(es.entries), old(lists[a]), k)
      ensures es.allocCounter == old(es.allocCounter) - 1
      ensures es.counters.count == old(es.counters.count) - {x}
    {
      ghost var list := lists[a];
      ghost var entries0 := es.entries;
      assert LinkOk(entries0, a, list, k - 1) && LinkOk(entries0, a, list, k);
      assert prev != x;
      var next := es.GetNext(x);
      es.SetNext(prev, next);
      Unlink(x, es);
      UpdateRemoveCommute(entries0, prev, entries0[prev].(next := next), x);
      SetList(a, RemoveAt(list, k));
    }

    /** Records the entry list node `a` heads after a relink that leaves its
        head pointer alone. */
    method SetList(a: nat, ghost list: seq<nat>)
      requires Valid() && a in nodes
      modifies this
      ensures Valid()
      ensures nodes == old(nodes) && lists == old(lists)[a := list]
      ensures allocCounter == old(allocCounter)
    {
      lists := lists[a := list];
    }

    /** The tail of `erase_entry` once the entry is out of the list: clear
        its links and free it. */
    method Unlink(x: nat, es: EntryStore<T>)
      requires es.Valid() && x in es.entries
      modifies es, es.counters
      ensures es.Valid()
      ensures es.entries == old(es.entries) - {x}
      ensures es.allocCounter == old(es.allocCounter) - 1
      ensures es.counters.count == old(es.counters.count) - {x}
    {
      es.SetNext(x, Null);
      es.SetNode(x, Null);
      es.Delete(x);
    }
  }
}
