/** `soft_tcam<T, size>`: the ternary-CAM engine. It owns the trie, whose
    nodes live in a `NodeStore` and whose entries live in an `EntryStore`,
    and offers `insert`, `erase` and `find` over the rules it holds. */
module Tcam {
  import opened Common
  import opened TcamEntry
  import opened TcamNode
  import opened EntryList
  import opened Trie
  import opened TcamRules
  import opened TcamSearch
  import opened TcamNearest
  import opened TrieEdit
  import opened RuleEdit
  import opened Teardown

  /** The validation loop of `insert`: every bit whose mask is 0 must carry data 0. */
  method CheckPattern(data: Bits, mask: Bits) returns (ok: bool)
    requires |data| == |mask|
    ensures ok <==> WellFormed(data, mask)
  {
    var i := 0;
    while i < |mask|
      invariant 0 <= i <= |mask|
      invariant forall j :: 0 <= j < i ==> mask[j] || !data[j]
    {
      if !mask[i] && data[i] {
        return false;
      }
      i := i + 1;
    }
    return true;
  }

  /** The bit loop of `find_entry`: `key` satisfies the pattern on [lo, hi),
      scanning from `lo` upward and stopping at the first mismatch. */
  method MatchesRange(key: Bits, data: Bits, mask: Bits, lo: nat, hi: nat) returns (ok: bool)
    requires lo <= hi <= |key| && hi <= |data| && hi <= |mask|
    ensures ok <==> MatchesOn(key, data, mask, lo, hi)
  {
    var i := lo;
    while i < hi
      invariant lo <= i <= hi
      invariant MatchesOn(key, data, mask, lo, i)
    {
      if mask[i] && key[i] != data[i] {
        return false;
      }
      i := i + 1;
    }
    return true;
  }

  /** The bit loop of `find_nearest_node`: two patterns agree on [lo, hi). */
  method AgreesRange(d1: Bits, m1: Bits, d2: Bits, m2: Bits, lo: nat, hi: nat) returns (ok: bool)
    requires lo <= hi <= |d1| && hi <= |m1| && hi <= |d2| && hi <= |m2|
    ensures ok <==> AgreeOn(d1, m1, d2, m2, lo, hi)
  {
    var i := lo;
    while i < hi
      invariant lo <= i <= hi
      invariant AgreeOn(d1, m1, d2, m2, lo, i)
    {
      if d1[i] != d2[i] || m1[i] != m2[i] {
        return false;
      }
      i := i + 1;
    }
    return true;
  }

  /** The prefix loop of `insert_between`: the bits of `(d2, m2)` up to the
      first index where it differs from `(d1, m1)`, zeros from there on,
      and that index (`size` when there is none). */
  method CommonPrefix(size: nat, d1: Bits, m1: Bits, d2: Bits, m2: Bits) returns (data: Bits, mask: Bits, position: nat)
    requires |d1| == size && |m1| == size && |d2| == size && |m2| == size
    ensures PrefixOf(size, data, mask, d2, m2, position)
    ensures AgreeOn(d1, m1, d2, m2, 0, position)
    ensures position < size ==> d1[position] != d2[position] || m1[position] != m2[position]
  {
    data := seq(size, _ => false);
    mask := seq(size, _ => false);
    position := 0;
    var i := 0;
    while i < size
      invariant i <= size && position == i
      invariant PrefixOf(size, data, mask, d2, m2, i)
      invariant AgreeOn(d1, m1, d2, m2, 0, i)
    {
      if d1[i] != d2[i] || m1[i] != m2[i] {
        break;
      }
      data := data[i := d2[i]];
      mask := mask[i := m2[i]];
      position := i + 1;
      i := i + 1;
    }
  }

  class SoftTcam<T(==,0)> {
    /** The width of every key, pattern and mask (the template argument `size`). */
    const size: nat
    /** `m_root`. */
    var root: Ptr
    /** The heap of trie nodes. */
    const ns: NodeStore<T>
    /** The heap of entries. */
    const es: EntryStore<T>

    /** Both heaps are consistent, the trie is well shaped, every node's
        entry list is well formed and every live entry hangs on a node. */
    ghost predicate Valid()
      reads this, ns, es
    {
      ns.Valid() && es.Valid() &&
      TreeOk(size, root, ns.nodes) && StoreOk(ns.nodes, ns.lists, es.entries)
    }

    /** The rules the engine holds. */
    ghost function Rules(): map<nat, Rule<T>>
      reads this, ns, es
    {
      TcamRules.Rules(ns.nodes, es.entries)
    }

    /** An empty engine: no root, no nodes, no entries, no rules. */
    constructor (size: nat)
      ensures Valid()
      ensures this.size == size && root == Null
      ensures ns.nodes == map[] && es.entries == map[] && Rules() == map[]
      ensures fresh(ns) && fresh(es) && fresh(ns.counters) && fresh(es.counters)
    {
      this.size := size;
      root := Null;
      ns := new NodeStore();
      es := new EntryStore();
    }

    /** The destructor: destroys the whole trie from the root, which frees
        every node and every entry, and leaves the engine empty. */
    method Dispose()
      requires Valid()
      modifies this, ns, ns.counters, es, es.counters
      ensures Valid() && root == Null
      ensures ns.nodes == map[] && es.entries == map[] && Rules() == map[]
      ensures ns.allocCounter == 0 && es.allocCounter == 0
    {
      ghost var nodes0, lists0, entries0 := ns.nodes, ns.lists, es.entries;
      WholeTree(size, root, nodes0, lists0, entries0);
      if root != Null {
        ghost var sub := Sub(nodes0, root.a);
        DestroyNode(root.a, nodes0, root);
        assert ns.nodes == nodes0 - sub && ns.lists == lists0 - sub && es.entries == entries0 - Held(lists0, sub);
        root := Null;
      }
      EmptyOk(size, ns.nodes, ns.lists, es.entries);
    }

    /** `find_nearest_node`: walks from the root along the slots the
        pattern selects. It returns
        - nullptr when the trie is empty or the root already disagrees with
          the pattern before its position;
        - otherwise a node that agrees with the pattern before its own
          position, which is either full (then it carries exactly this
          pattern) or whose child in the pattern's slot is empty or
          disagrees with the pattern before the child's position.
        A full node carrying exactly this pattern, if there is one, is the
        node returned. */
    method FindNearestNode(data: Bits, mask: Bits) returns (r: Ptr)
      requires Shaped(size, root, ns.nodes) && |data| == size && |mask| == size
      ensures root == Null ==> r == Null
      ensures r == Null && root.Addr? ==>
                root.a in ns.nodes &&
                !AgreeOn(ns.nodes[root.a].data, ns.nodes[root.a].mask, data, mask, 0, ns.nodes[root.a].position)
      ensures r.Addr? ==>
                r.a in ns.nodes && ns.nodes[r.a].position <= size &&
                AgreeOn(ns.nodes[r.a].data, ns.nodes[r.a].mask, data, mask, 0, ns.nodes[r.a].position)
      ensures r.Addr? && ns.nodes[r.a].position == size ==>
                ns.nodes[r.a].data == data && ns.nodes[r.a].mask == mask
      ensures r.Addr? && ns.nodes[r.a].position < size ==>
                var c := Child(ns.nodes[r.a], SlotOf(data, mask, ns.nodes[r.a].position));
                c.Null? ||
                (c.a in ns.nodes &&
                 !AgreeOn(ns.nodes[c.a].data, ns.nodes[c.a].mask, data, mask, 0, ns.nodes[c.a].position))
      ensures forall f :: (f in ns.nodes && ns.nodes[f].position == size &&
                           ns.nodes[f].data == data && ns.nodes[f].mask == mask) ==> r == Addr(f)
    {
      if root == Null {
        RootIffEmpty(size, root, ns.nodes);
        return Null;
      }
      ghost var nodes := ns.nodes;
      var position: nat := 0;
      var node := root.a;
      NearestStart(size, root, nodes, data, mask);
      assert NodeOk(size, root, nodes, node);
      while true
        invariant node in nodes && position <= nodes[node].position <= size
        invariant AgreeOn(nodes[node].data, nodes[node].mask, data, mask, 0, position)
        invariant root == Addr(node) || NearestParent(nodes, data, mask, node, position)
        invariant ExactBelow(size, nodes, data, mask, node)
        decreases size - nodes[node].position
      {
        var n := ns.nodes[node];
        assert NodeOk(size, root, nodes, node);
        var ok := AgreesRange(n.data, n.mask, data, mask, position, n.position);
        if !ok {
          NearestMismatch(size, root, nodes, data, mask, node, position);
          return n.parent;
        }
        if n.position == size {
          NearestFull(size, root, nodes, data, mask, node);
          return Addr(node);
        }
        NearestStep(size, root, nodes, data, mask, node);
        position := n.position;
        var temp: Ptr;
        if !mask[position] {
          temp := n.ndc;
        } else if !data[position] {
          temp := n.n0;
        } else {
          temp := n.n1;
        }
        assert temp == Child(n, SlotOf(data, mask, position));
        if temp == Null {
          return Addr(node);
        }
        node := temp.a;
      }
    }

    /** `find_entry`: the backtracking search with an explicit stack of
        deferred don't-care branches, each a node with the prefix of bits
        already checked for it. It yields exactly what the recursive
        `Search` from the root yields, and the stack never holds more than
        `size` branches, the room its two arrays have. */
    method FindEntry(key: Bits) returns (e: Ptr)
      requires Shaped(size, root, ns.nodes) && HeadsLive(size, ns.nodes, es.entries) && |key| == size
      ensures e == SearchAll(size, root, ns.nodes, es.entries, key)
    {
      var stack: seq<(nat, nat)> := [];
      e := Null;
      var prev: nat := 0;
      var node := root;
      InvStart(size, root, ns.nodes, es.entries, key);
      while node.Addr? || stack != []
        invariant |stack| <= size
        invariant Inv(size, root, ns.nodes, es.entries, key, node, prev, e, stack)
        decreases Left(size, ns.nodes, node, stack), |stack|
      {
        if node.Null? {
          InvPop(size, root, ns.nodes, es.entries, key, prev, e, stack);
          prev := stack[|stack| - 1].1;
          node := Addr(stack[|stack| - 1].0);
          stack := stack[..|stack| - 1];
          continue;
        }
        var n := ns.nodes[node.a];
        Widths(size, root, ns.nodes, node.a);
        var curr := n.position;
        var matched := MatchesRange(key, n.data, n.mask, prev, curr);
        if !matched {
          InvMismatch(size, root, ns.nodes, es.entries, key, node.a, prev, e, stack);
          node := Null;
          continue;
        }
        if curr == size {
          InvFull(size, root, ns.nodes, es.entries, key, node.a, prev, e, stack);
          var head := n.entries;
          if e == Null || es.entries[head.a].priority > es.entries[e.a].priority {
            e := head;
          }
          prev := curr;
          node := Null;
          continue;
        }
        var temp := KeyChild(n, key);
        if n.ndc != Null {
          if temp != Null {
            InvPush(size, root, ns.nodes, es.entries, key, node.a, prev, e, stack);
            stack := stack + [(n.ndc.a, curr)];
            prev := curr;
            node := temp;
            continue;
          }
          temp := n.ndc;
        }
        InvDescend(size, root, ns.nodes, es.entries, key, node.a, prev, e, stack, temp);
        prev := curr;
        node := temp;
      }
      InvEnd(size, root, ns.nodes, es.entries, key, prev, e);
    }

    /** `find`: the object of the rule `find_entry` settles on, or nothing.
        Nothing exactly when no rule matches the key; otherwise the object
        of a matching rule that no matching rule outranks. */
    method Find(key: Bits) returns (r: Option<T>)
      requires Valid() && |key| == size
      ensures r.None? <==> forall x :: x in Rules() ==> !Matches(key, Rules()[x].data, Rules()[x].mask)
      ensures r.Some? ==>
                exists x :: x in Rules() && Matches(key, Rules()[x].data, Rules()[x].mask) &&
                            Rules()[x].obj == r.value &&
                            forall y :: y in Rules() && Matches(key, Rules()[y].data, Rules()[y].mask) ==>
                                          Rules()[y].priority <= Rules()[x].priority
    {
      HeadsLiveOk(size, root, ns.nodes, ns.lists, es.entries);
      var e := FindEntry(key);
      FindBest(size, root, ns.nodes, ns.lists, es.entries, key);
      if e == Null {
        return None;
      }
      r := Some(es.entries[e.a].obj);
      assert Rules()[e.a].obj == r.value;
    }

    /** The start of `insert` after validation: a fresh entry carrying the
        priority and the object, on no node and linked to nothing, which
        therefore adds no rule yet. */
    method NewEntry(priority: U32, obj: T) returns (x: nat)
      requires es.Valid() && StoreOk(ns.nodes, ns.lists, es.entries)
      modifies es, es.counters
      ensures es.Valid() && es.allocCounter == old(es.allocCounter) + 1
      ensures x !in old(es.entries)
      ensures es.entries == old(es.entries)[x := Entry(priority, obj, Null, Null)]
      ensures StoreOk(ns.nodes, ns.lists, es.entries - {x})
      ensures Rules() == old(Rules())
    {
      ghost var entries0 := es.entries;
      x := es.New();
      es.SetPriority(x, priority);
      es.SetObject(x, obj);
      assert es.entries - {x} == entries0;
      UnattachedRules(ns.nodes, es.entries, x);
    }

    /** `new soft_tcam_node(data, mask, size)`, `insert_entry(entry)` and
        `set_node`: a full leaf holding the pattern and the fresh entry `x`,
        not yet linked into the trie. The rule of `x` is now held. */
    method NewLeaf(data: Bits, mask: Bits, x: nat) returns (leaf: nat)
      requires ns.Valid() && es.Valid()
      requires x in es.entries && es.entries[x].node == Null
      requires StoreOk(ns.nodes, ns.lists, es.entries - {x})
      modifies ns, ns.counters, es, es.counters
      ensures ns.Valid() && es.Valid() && es.allocCounter == old(es.allocCounter)
      ensures leaf !in old(ns.nodes)
      ensures ns.nodes == old(ns.nodes)[leaf := Node(data, mask, size, Null, Null, Null, Null, Addr(x))]
      ensures StoreOk(ns.nodes, ns.lists, es.entries)
      ensures Rules() == old(Rules())[x := Rule(data, mask, old(es.entries)[x].priority, old(es.entries)[x].obj)]
    {
      ghost var nodes0, lists0, entries0 := ns.nodes, ns.lists, es.entries;
      leaf := ns.New(data, mask, size);
      var r := ns.InsertEntry(leaf, Addr(x), es);
      LeafInserted(nodes0, lists0, entries0, leaf, Node(data, mask, size, Null, Null, Null, Null, Null), x,
                   ns.nodes, ns.lists, es.entries);
      ghost var entries2 := es.entries;
      es.SetNode(x, Addr(leaf));
      assert es.entries == entries2;
    }

    /** `insert_entry(entry)` and `set_node` on the full node `f` that
        already carries the pattern: the rule of `x` joins the rules held
        there and the trie keeps its shape. */
    method AddToFull(f: nat, x: nat)
      requires ns.Valid() && es.Valid() && TreeOk(size, root, ns.nodes)
      requires f in ns.nodes && ns.nodes[f].position == size
      requires x in es.entries && es.entries[x].node == Null
      requires StoreOk(ns.nodes, ns.lists, es.entries - {x})
      modifies ns, es, es.counters
      ensures Valid() && es.allocCounter == old(es.allocCounter)
      ensures ns.nodes.Keys == old(ns.nodes).Keys
      ensures Rules() == old(Rules())[x := Rule(old(ns.nodes)[f].data, old(ns.nodes)[f].mask,
                                                old(es.entries)[x].priority, old(es.entries)[x].obj)]
    {
      ghost var nodes0, lists0, entries0 := ns.nodes, ns.lists, es.entries;
      ListWithout(nodes0, lists0, entries0, x, f);
      var r := ns.InsertEntry(f, Addr(x), es);
      InsertedStore(nodes0, lists0, entries0, f, x, ns.nodes, ns.lists, es.entries);
      HeadChanged(size, root, nodes0, f, ns.nodes[f].entries);
      ghost var entries2 := es.entries;
      es.SetNode(x, Addr(f));
      assert es.entries == entries2;
    }

    /** The slot choice `insert` and `insert_between` spell out each time:
        `set_ndc` when bit `i` of the mask is 0, otherwise `set_n0` or
        `set_n1` by bit `i` of the data. */
    method SetSlot(a: nat, data: Bits, mask: Bits, i: nat, c: Ptr)
      requires ns.Valid() && a in ns.nodes && i < |data| && i < |mask|
      modifies ns
      ensures ns.Valid() && ns.lists == old(ns.lists) && ns.allocCounter == old(ns.allocCounter)
      ensures ns.nodes == old(ns.nodes)[a := SetChild(old(ns.nodes)[a], SlotOf(data, mask, i), c)]
    {
      if !mask[i] {
        ns.SetNdc(a, c);
      } else if !data[i] {
        ns.SetN0(a, c);
      } else {
        ns.SetN1(a, c);
      }
    }

    /** One link of `insert` or `insert_between`: `p` takes `c` in the
        slot `c`'s pattern selects at `p`'s position, and `c` points back
        at `p`. */
    method Hang(p: nat, c: nat)
      requires ns.Valid() && CanHang(ns.nodes, p, c)
      modifies ns
      ensures ns.Valid() && ns.lists == old(ns.lists) && ns.allocCounter == old(ns.allocCounter)
      ensures ns.nodes == Hung(old(ns.nodes), p, c)
    {
      var n := ns.nodes[c];
      SetSlot(p, n.data, n.mask, ns.nodes[p].position, Addr(c));
      ns.SetParent(c, Addr(p));
    }

    /** The empty-slot branch of `insert`: the nearest node `p` takes the
        new leaf in the slot the pattern selects at its position, and the
        leaf points back at `p`. Nothing else changes, so the rules stay as
        they are. */
    method AttachLeaf(p: nat, leaf: nat, ghost nodes0: map<nat, Node>)
      requires ns.Valid() && TreeOk(size, root, nodes0) && p in nodes0 && leaf !in nodes0
      requires leaf in ns.nodes && ns.nodes == nodes0[leaf := ns.nodes[leaf]] && FreshLeaf(size, ns.nodes[leaf])
      requires var l := ns.nodes[leaf];
               nodes0[p].position < size &&
               AgreeOn(nodes0[p].data, nodes0[p].mask, l.data, l.mask, 0, nodes0[p].position) &&
               Child(nodes0[p], SlotOf(l.data, l.mask, nodes0[p].position)) == Null
      requires es.Valid() && StoreOk(ns.nodes, ns.lists, es.entries)
      modifies ns
      ensures Valid() && ns.nodes.Keys == old(ns.nodes).Keys && ns.allocCounter == old(ns.allocCounter)
      ensures ns.nodes == Hung(old(ns.nodes), p, leaf)
      ensures Rules() == old(Rules())
    {
      ghost var l := ns.nodes[leaf];
      ghost var lists1 := ns.lists;
      WithLeafHung(nodes0, p, leaf, l);
      Hang(p, leaf);
      AttachStore(size, root, nodes0, p, leaf, l, lists1, es.entries);
    }

    /** `insert_between(less, more, node)`: a new branching node `t` takes
        the bits the leaf shares with `more` up to their first difference,
        and that index as its position. `t` replaces `more` below `less`
        (or as the root when `less` is nullptr) and holds `more` and the
        leaf in the slots their patterns select there. The trie keeps its
        shape, the rules stay as they are, and the result is 0. */
    method InsertBetween(less: Ptr, more: nat, leaf: nat, ghost nodes0: map<nat, Node>)
      returns (r: int, ghost t: nat, ghost tdata: Bits, ghost tmask: Bits, ghost d: nat)
      requires ns.Valid() && TreeOk(size, root, nodes0) && more in nodes0 && leaf !in nodes0
      requires leaf in ns.nodes && ns.nodes == nodes0[leaf := ns.nodes[leaf]] && FreshLeaf(size, ns.nodes[leaf])
      requires var l := ns.nodes[leaf];
               !AgreeOn(nodes0[more].data, nodes0[more].mask, l.data, l.mask, 0, nodes0[more].position)
      requires less.Null? ==> root == Addr(more)
      requires less.Addr? ==>
                 var l := ns.nodes[leaf];
                 less.a in nodes0 && nodes0[less.a].position < size &&
                 AgreeOn(nodes0[less.a].data, nodes0[less.a].mask, l.data, l.mask, 0, nodes0[less.a].position) &&
                 Child(nodes0[less.a], SlotOf(l.data, l.mask, nodes0[less.a].position)) == Addr(more)
      requires es.Valid() && StoreOk(ns.nodes, ns.lists, es.entries)
      modifies this, ns, ns.counters
      ensures r == 0 && Valid()
      ensures t !in old(ns.nodes)
      ensures BetweenMade(size, old(root), nodes0, less, more, leaf, old(ns.nodes[leaf]), t, tdata, tmask, d, root, ns.nodes)
      ensures Rules() == old(Rules())
    {
      assert (es as object) != ns && (es as object) != ns.counters;
      var l := ns.nodes[leaf];
      ghost var nodes1, lists1 := ns.nodes, ns.lists;
      ghost var root0 := root;
      var m := ns.nodes[more];
      Widths(size, root, nodes0, more);
      var data, mask, position := CommonPrefix(size, m.data, m.mask, l.data, l.mask);
      var branch := ns.New(data, mask, position);
      t, tdata, tmask, d := branch, data, mask, position;
      BetweenReady(size, root0, nodes0, less, more, leaf, l, t, tdata, tmask, d);
      LinkBranch(less, branch, more, leaf, nodes0, l, tdata, tmask, d, lists1);
      r := 0;
    }

    /** The part of `insert_between` after the branching node `t` is
        allocated: the three links, after which the trie keeps its invariant,
        its nodes are as `Between` describes, and the rules are those held
        before the leaf was made. */
    method LinkBranch(less: Ptr, t: nat, more: nat, leaf: nat, ghost nodes0: map<nat, Node>, ghost l: Node,
                      ghost tdata: Bits, ghost tmask: Bits, ghost d: nat, ghost lists1: map<nat, seq<nat>>)
      requires ns.Valid() && es.Valid() && TreeOk(size, root, nodes0)
      requires BetweenPre(size, root, nodes0, less, more, leaf, l, t, tdata, tmask, d)
      requires ns.nodes == nodes0[leaf := l][t := Node(tdata, tmask, d, Null, Null, Null, Null, Null)]
      requires ns.lists == lists1[t := []] && StoreOk(nodes0[leaf := l], lists1, es.entries)
      modifies this, ns
      ensures Valid() && ns.allocCounter == old(ns.allocCounter)
      ensures BetweenMade(size, old(root), nodes0, less, more, leaf, l, t, tdata, tmask, d, root, ns.nodes)
      ensures Rules() == TcamRules.Rules(nodes0[leaf := l], es.entries)
    {
      ghost var root0 := root;
      BetweenStore(size, root0, nodes0, less, more, leaf, l, t, tdata, tmask, d, lists1, es.entries);
      Relink(less, t, more, leaf);
      BetweenMadeByLinks(size, root0, nodes0, less, more, leaf, l, t, tdata, tmask, d, root, ns.nodes);
    }

    /** The links `insert_between` makes once the branching node `t`
        exists: `t` below `less` (or as the root when `less` is nullptr),
        then `more` and the leaf below `t`. */
    method Relink(less: Ptr, t: nat, more: nat, leaf: nat)
      requires ns.Valid() && CanHang(ns.nodes, t, more) && CanHang(ns.nodes, t, leaf)
      requires less.Addr? ==> CanHang(ns.nodes, less.a, t)
      modifies this, ns
      ensures ns.Valid() && ns.lists == old(ns.lists) && ns.allocCounter == old(ns.allocCounter)
      ensures root == if less.Null? then Addr(t) else old(root)
      ensures ns.nodes == BranchLinks(old(ns.nodes), less, t, more, leaf)
    {
      if less.Null? {
        root := Addr(t);
      } else {
        Hang(less.a, t);
      }
      Hang(t, more);
      Hang(t, leaf);
    }

    /** `insert(data, mask, priority, object)`: -1, with nothing changed,
        exactly when some bit has mask 0 and data 1; otherwise 0, and the
        engine holds one more rule, carried by the fresh entry `x`, with
        this pattern, priority and object, next to all the rules it held. */
    method Insert(data: Bits, mask: Bits, priority: U32, obj: T) returns (r: int, ghost x: nat)
      requires Valid() && |data| == size && |mask| == size
      modifies this, ns, ns.counters, es, es.counters
      ensures Valid()
      ensures r == 0 || r == -1
      ensures r == -1 <==> !WellFormed(data, mask)
      ensures r == -1 ==> root == old(root) && ns.nodes == old(ns.nodes) && es.entries == old(es.entries)
      ensures r == 0 ==> x !in old(es.entries) && Rules() == old(Rules())[x := Rule(data, mask, priority, obj)]
      ensures r == 0 && old(root) == Null ==>
                root.Addr? && ns.nodes == map[root.a := Node(data, mask, size, Null, Null, Null, Null, Addr(x))]
      ensures forall f :: Exact(size, old(ns.nodes), data, mask, f) ==> ns.nodes.Keys == old(ns.nodes).Keys
    {
      var ok := CheckPattern(data, mask);
      if !ok {
        return -1, 0;
      }
      var entry := NewEntry(priority, obj);
      x := entry;
      if root == Null {
        RootIffEmpty(size, root, ns.nodes);
        var leaf := NewLeaf(data, mask, entry);
        root := Addr(leaf);
        LoneLeaf(size, leaf, ns.nodes[leaf]);
        return 0, x;
      }
      var nearest := FindNearestNode(data, mask);
      ghost var nodes0 := ns.nodes;
      if nearest == Null {
        var leaf := NewLeaf(data, mask, entry);
        ghost var t, tdata, tmask, d;
        r, t, tdata, tmask, d := InsertBetween(Null, root.a, leaf, nodes0);
        return r, x;
      }
      var f := ns.nodes[nearest.a];
      if f.position == size {
        AddToFull(nearest.a, entry);
        return 0, x;
      }
      var leaf := NewLeaf(data, mask, entry);
      ghost var t, tdata, tmask, d;
      r, t, tdata, tmask, d := PlaceLeaf(nearest.a, leaf, nodes0);
      return r, x;
    }

    /** The tail of `insert` below the nearest node `p`, which is not full:
        the leaf goes into `p`'s slot for its pattern when that slot is
        empty; otherwise `insert_between(p, temp, leaf)` puts a branching
        node between `p` and the child `temp` found there. */
    method PlaceLeaf(p: nat, leaf: nat, ghost nodes0: map<nat, Node>)
      returns (r: int, ghost t: nat, ghost tdata: Bits, ghost tmask: Bits, ghost d: nat)
      requires ns.Valid() && TreeOk(size, root, nodes0) && p in nodes0 && leaf !in nodes0
      requires leaf in ns.nodes && ns.nodes == nodes0[leaf := ns.nodes[leaf]] && FreshLeaf(size, ns.nodes[leaf])
      requires var l := ns.nodes[leaf];
               nodes0[p].position < size &&
               AgreeOn(nodes0[p].data, nodes0[p].mask, l.data, l.mask, 0, nodes0[p].position)
      requires var l := ns.nodes[leaf];
               var c := Child(nodes0[p], SlotOf(l.data, l.mask, nodes0[p].position));
               c.Null? || (c.a in nodes0 && !AgreeOn(nodes0[c.a].data, nodes0[c.a].mask, l.data, l.mask, 0, nodes0[c.a].position))
      requires es.Valid() && StoreOk(ns.nodes, ns.lists, es.entries)
      modifies this, ns, ns.counters
      ensures r == 0 && Valid() && Rules() == old(Rules())
      ensures var l := old(ns.nodes[leaf]);
              Child(nodes0[p], SlotOf(l.data, l.mask, nodes0[p].position)) == Null ==>
                root == old(root) && ns.nodes == Hung(old(ns.nodes), p, leaf)
      ensures var l := old(ns.nodes[leaf]);
              var c := Child(nodes0[p], SlotOf(l.data, l.mask, nodes0[p].position));
              c.Addr? ==>
                (t !in old(ns.nodes) &&
                 BetweenMade(size, old(root), nodes0, Addr(p), c.a, leaf, l, t, tdata, tmask, d, root, ns.nodes))
    {
      var l := ns.nodes[leaf];
      var temp := Child(ns.nodes[p], SlotOf(l.data, l.mask, ns.nodes[p].position));
      if temp == Null {
        AttachLeaf(p, leaf, nodes0);
        return 0, 0, [], [], 0;
      }
      r, t, tdata, tmask, d := InsertBetween(Addr(p), temp.a, leaf, nodes0);
    }

    /** The tail of `erase_node` and `destroy_node`: clear the links of `n`
        and free it. Its address and its (empty) list leave the heap. */
    method Free(n: nat)
      requires ns.Valid() && n in ns.nodes
      modifies ns, ns.counters
      ensures ns.Valid() && ns.allocCounter == old(ns.allocCounter) - 1
      ensures ns.nodes == old(ns.nodes) - {n} && ns.lists == old(ns.lists) - {n}
      ensures unchanged(es)
    {
      assert (es as object) != ns && (es as object) != ns.counters;
      ghost var nodes0 := ns.nodes;
      ns.SetN0(n, Null);
      ns.SetN1(n, Null);
      ns.SetNdc(n, Null);
      ns.SetParent(n, Null);
      assert ns.nodes - {n} == nodes0 - {n};
      ns.Delete(n);
    }

    /** The slot scan of `erase_node`: the parent `p` of `n` clears the one
        slot that holds `n`, and `hasChild` tells whether `p` still holds a
        child in another slot. */
    method DetachFromParent(p: nat, n: nat) returns (hasChild: bool)
      requires ns.Valid() && DetachPre(size, root, ns.nodes, n) && ns.nodes[n].parent == Addr(p)
      modifies ns
      ensures ns.Valid() && ns.lists == old(ns.lists) && ns.allocCounter == old(ns.allocCounter)
      ensures ns.nodes == old(ns.nodes)[p := SetChild(old(ns.nodes)[p], UpSlot(old(ns.nodes), n), Null)]
      ensures hasChild <==> ns.nodes[p].n0 != Null || ns.nodes[p].n1 != Null || ns.nodes[p].ndc != Null
    {
      OnlySlot(size, root, ns.nodes, n, Zero);
      OnlySlot(size, root, ns.nodes, n, One);
      OnlySlot(size, root, ns.nodes, n, DontCare);
      hasChild := false;
      var q := ns.nodes[p];
      if q.n0 != Null {
        if q.n0 == Addr(n) {
          ns.SetN0(p, Null);
        } else {
          hasChild := true;
        }
      }
      if q.n1 != Null {
        if q.n1 == Addr(n) {
          ns.SetN1(p, Null);
        } else {
          hasChild := true;
        }
      }
      if q.ndc != Null {
        if q.ndc == Addr(n) {
          ns.SetNdc(p, Null);
        } else {
          hasChild := true;
        }
      }
    }

    /** `erase_node(n)`: -1, with nothing changed, when `n` still has a
        child or an entry; otherwise `n` is freed, its parent's slot is
        cleared, and a parent left without children is erased in turn, up
        to the root (whose removal empties the trie). The trie invariant is
        restored, only nodes are removed, and the rules stay as they are. */
    method EraseNode(n: nat) returns (r: int)
      requires ns.Valid() && es.Valid() && n in ns.nodes
      requires TreeOkBut(size, root, ns.nodes, Addr(n)) && StoreOk(ns.nodes, ns.lists, es.entries)
      modifies this, ns, ns.counters
      decreases ns.nodes[n].position
      ensures Valid() && Rules() == old(Rules())
      ensures r == 0 || r == -1
      ensures r == -1 <==> old(ns.nodes[n].n0 != Null || ns.nodes[n].n1 != Null ||
                               ns.nodes[n].ndc != Null || ns.nodes[n].entries != Null)
      ensures r == -1 ==> root == old(root) && ns.nodes == old(ns.nodes)
      ensures r == 0 ==> n !in ns.nodes && ns.nodes.Keys <= old(ns.nodes).Keys
      ensures ns.nodes == Pruned(old(ns.nodes), n)
      ensures root == if ns.nodes == map[] then Null else old(root)
    {
      var node := ns.nodes[n];
      if node.n1 != Null || node.n0 != Null || node.ndc != Null || node.entries != Null {
        InUse(size, root, ns.nodes, n);
        return -1;
      }
      ghost var nodes0, lists0 := ns.nodes, ns.lists;
      assert NodeOk(size, root, nodes0, n);
      var parent := node.parent;
      if parent == Null {
        LastNode(size, root, nodes0, n);
        LastStore(nodes0, n, lists0, es.entries);
        root := Null;
        Free(n);
        return 0;
      }
      DetachStore(size, root, nodes0, n, lists0, es.entries);
      DetachedInOrder(size, root, nodes0, n);
      PrunedDetached(size, root, nodes0, n);
      var hasChild := DetachFromParent(parent.a, n);
      Free(n);
      assert ns.nodes == Detached(size, root, nodes0, n);
      if !hasChild {
        var _ := EraseNode(parent.a);
      }
      return 0;
    }

    /** The scan loop of `erase` over the entry list of the full node `f`:
        the first entry, at index `k`, with this priority and object, or
        nullptr (and `k` past the end) when there is none. */
    method Locate(f: nat, priority: U32, obj: T) returns (entry: Ptr, ghost k: nat)
      requires f in ns.nodes && f in ns.lists && ListOk(es.entries, f, ns.nodes[f].entries, ns.lists[f])
      ensures k <= |ns.lists[f]| && entry == PtrAt(ns.lists[f], k)
      ensures forall j :: 0 <= j < k ==>
                es.entries[ns.lists[f][j]].priority != priority || es.entries[ns.lists[f][j]].obj != obj
      ensures k < |ns.lists[f]| ==>
                es.entries[ns.lists[f][k]].priority == priority && es.entries[ns.lists[f][k]].obj == obj
      ensures entry.Null? <==>
                forall y :: y in ns.lists[f] ==> es.entries[y].priority != priority || es.entries[y].obj != obj
      ensures entry.Addr? ==>
                entry.a in ns.lists[f] && es.entries[entry.a].priority == priority && es.entries[entry.a].obj == obj
    {
      ghost var list := ns.lists[f];
      entry := ns.nodes[f].entries;
      k := 0;
      while entry != Null
        invariant k <= |list| && entry == PtrAt(list, k)
        invariant forall j :: 0 <= j < k ==>
                    es.entries[list[j]].priority != priority || es.entries[list[j]].obj != obj
        decreases |list| - k
      {
        assert LinkOk(es.entries, f, list, k);
        var e := es.entries[entry.a];
        if e.priority == priority && e.obj == obj {
          return;
        }
        entry := e.next;
        k := k + 1;
      }
    }

    /** `erase(data, mask, priority, object)`: 0 exactly when the engine
        holds a rule with this pattern, priority and object; one such rule,
        carried by entry `x`, is then dropped and every other rule stays.
        Otherwise -1 with nothing changed. The trie keeps its invariant,
        pruning nodes left without entries or children. */
    method Erase(data: Bits, mask: Bits, priority: U32, obj: T) returns (r: int, ghost x: nat)
      requires Valid() && |data| == size && |mask| == size
      modifies this, ns, ns.counters, es, es.counters
      ensures Valid()
      ensures r == 0 || r == -1
      ensures r == 0 ==> x in old(Rules()) && old(Rules())[x] == Rule(data, mask, priority, obj) &&
                         Rules() == old(Rules()) - {x}
      ensures r == -1 ==> forall y :: y in old(Rules()) ==> old(Rules())[y] != Rule(data, mask, priority, obj)
      ensures r == -1 ==> root == old(root) && ns.nodes == old(ns.nodes) && es.entries == old(es.entries)
      ensures r == 0 ==> Shrunk(old(ns.nodes), ns.nodes)
    {
      var nearest := FindNearestNode(data, mask);
      if nearest == Null || ns.nodes[nearest.a].position != size {
        NoFullNoRule(size, root, ns.nodes, ns.lists, es.entries, data, mask);
        return -1, 0;
      }
      var f := nearest.a;
      ghost var nodes0, lists0, entries0 := ns.nodes, ns.lists, es.entries;
      FullRules(size, root, nodes0, lists0, entries0, f);
      assert ListAt(nodes0, lists0, entries0, f);
      var entry, k := Locate(f, priority, obj);
      if entry == Null {
        return -1, 0;
      }
      x := entry.a;
      var _ := ns.EraseEntry(f, entry, es);
      ErasedStore(nodes0, lists0, entries0, f, x, ns.nodes, ns.lists, es.entries);
      HeadChanged(size, root, nodes0, f, ns.nodes[f].entries);
      ErasedShrunk(nodes0, lists0, entries0, f, x, ns.nodes, ns.lists, es.entries);
      if ns.nodes[f].entries == Null {
        ghost var nodes1 := ns.nodes;
        var _ := EraseNode(f);
        PrunedKept(nodes1, f);
        ShrunkTrans(nodes0, nodes1, ns.nodes);
      }
      return 0, x;
    }

    /** The entry loop of `destroy_node`: node `a` erases the head of its
        list until none is left. Every entry of the list is freed and `a`
        keeps everything else. */
    method DropEntries(a: nat)
      requires ns.Valid() && es.Valid() && a in ns.nodes
      requires ListOk(es.entries, a, ns.nodes[a].entries, ns.lists[a])
      modifies ns, es, es.counters
      ensures ns.Valid() && es.Valid() && ns.allocCounter == old(ns.allocCounter)
      ensures ns.nodes == old(ns.nodes)[a := old(ns.nodes)[a].(entries := Null)]
      ensures ns.lists == old(ns.lists)[a := []]
      ensures es.entries == old(es.entries) - Held(old(ns.lists), {a})
    {
      ghost var list := ns.lists[a];
      ghost var k := 0;
      var entry := ns.nodes[a].entries;
      while entry != Null
        invariant ns.Valid() && es.Valid() && ns.allocCounter == old(ns.allocCounter)
        invariant k <= |list| && ns.lists == old(ns.lists)[a := list[k..]]
        invariant ns.nodes == old(ns.nodes)[a := old(ns.nodes)[a].(entries := entry)]
        invariant es.entries == old(es.entries) - Elems(list[..k])
        invariant ListOk(es.entries, a, entry, list[k..])
        decreases |list| - k
      {
        assert LinkOk(es.entries, a, list[k..], 0);
        var temp := es.entries[entry.a].next;
        ghost var nodes1, lists1, entries1 := ns.nodes, ns.lists, es.entries;
        var _ := ns.EraseEntry(a, entry, es);
        DropStep(old(ns.nodes), old(ns.lists), old(es.entries), a, list, k, entry,
                 nodes1, lists1, entries1, ns.nodes, ns.lists, es.entries);
        entry := temp;
        k := k + 1;
      }
      DropDone(old(ns.lists), a, list, k);
    }

    /** `destroy_node(a)`: frees every node of the subtree of `a` in the
        trie `tree` the destruction started from, and every entry their
        lists hold: the entries of `a` first, then the subtrees of `n0`,
        `n1` and `ndc`, then `a` itself. Nothing else is touched. */
    method DestroyNode(a: nat, ghost tree: map<nat, Node>, ghost top: Ptr)
      requires ns.Valid() && es.Valid() && Shaped(size, top, tree) && a in tree && tree[a].position <= size
      requires Intact(tree, ns.nodes, ns.lists, es.entries, Sub(tree, a))
      modifies ns, ns.counters, es, es.counters
      decreases size - tree[a].position + 1, 2
      ensures ns.Valid() && es.Valid()
      ensures ns.nodes == old(ns.nodes) - Sub(tree, a) && ns.lists == old(ns.lists) - Sub(tree, a)
      ensures es.entries == old(es.entries) - Held(old(ns.lists), Sub(tree, a))
    {
      ghost var nodes0, lists0, entries0 := ns.nodes, ns.lists, es.entries;
      SubSplit(size, top, tree, a);
      ghost var rest := Sub(tree, a) - {a};
      Rest(Sub(tree, a), a, SubAt(tree, tree[a].n0), SubAt(tree, tree[a].n1), SubAt(tree, tree[a].ndc));
      DropEntries(a);
      PeelTop(tree, nodes0, lists0, entries0, a, nodes0[a].(entries := Null), rest);
      DestroyChildren(a, tree, top);
      Free(a);
      TopFreed(nodes0, lists0, entries0, a, nodes0[a].(entries := Null), Sub(tree, a));
    }

    /** The child steps of `destroy_node(a)`: the subtrees of `n0`, `n1`
        and `ndc`, in that order. Together they free the subtree of `a`
        without `a` itself, and the entries held there. */
    method DestroyChildren(a: nat, ghost tree: map<nat, Node>, ghost top: Ptr)
      requires ns.Valid() && es.Valid() && Shaped(size, top, tree) && a in tree && tree[a].position <= size
      requires a in ns.nodes && ns.nodes[a].n0 == tree[a].n0 && ns.nodes[a].n1 == tree[a].n1 &&
               ns.nodes[a].ndc == tree[a].ndc
      requires Intact(tree, ns.nodes, ns.lists, es.entries, Sub(tree, a) - {a})
      modifies ns, ns.counters, es, es.counters
      decreases size - tree[a].position + 1, 1
      ensures ns.Valid() && es.Valid()
      ensures ns.nodes == old(ns.nodes) - (Sub(tree, a) - {a}) && ns.lists == old(ns.lists) - (Sub(tree, a) - {a})
      ensures es.entries == old(es.entries) - Held(old(ns.lists), Sub(tree, a) - {a})
    {
      ghost var nodes0, lists0, entries0 := ns.nodes, ns.lists, es.entries;
      SubSplit(size, top, tree, a);
      var n := ns.nodes[a];
      ghost var s0, s1, s2 := SubAt(tree, n.n0), SubAt(tree, n.n1), SubAt(tree, n.ndc);
      Rest(Sub(tree, a), a, s0, s1, s2);
      PeelOff(tree, ns.nodes, ns.lists, es.entries, s0, s1 + s2);
      DestroyChild(n.n0, tree, top);
      PeelOff(tree, ns.nodes, ns.lists, es.entries, s1, s2);
      DestroyChild(n.n1, tree, top);
      DestroyChild(n.ndc, tree, top);
      ChildrenNodes(nodes0, s0, s1, s2);
      ChildrenNodes(lists0, s0, s1, s2);
      ChildrenEntries(lists0, entries0, s0, s1, s2);
    }

    /** One child step of `destroy_node`: the subtree below a child
        pointer is destroyed unless the pointer is nullptr. */
    method DestroyChild(c: Ptr, ghost tree: map<nat, Node>, ghost top: Ptr)
      requires ns.Valid() && es.Valid() && Shaped(size, top, tree)
      requires c.Addr? ==> c.a in tree && tree[c.a].position <= size
      requires Intact(tree, ns.nodes, ns.lists, es.entries, SubAt(tree, c))
      modifies ns, ns.counters, es, es.counters
      decreases if c.Addr? then size - tree[c.a].position + 1 else 0, 3
      ensures ns.Valid() && es.Valid()
      ensures ns.nodes == old(ns.nodes) - SubAt(tree, c) && ns.lists == old(ns.lists) - SubAt(tree, c)
      ensures es.entries == old(es.entries) - Held(old(ns.lists), SubAt(tree, c))
    {
      if c != Null {
        DestroyNode(c.a, tree, top);
      } else {
        MinusNone(ns.nodes);
        MinusNone(ns.lists);
        MinusNone(es.entries);
      }
    }
  }
}
