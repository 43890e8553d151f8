/** How the edits `insert`, `insert_between` and `erase_node` make to the
    trie keep its invariant. Each edit is stated on the node map: the nodes
    it links, the slots it sets and the node it frees. */
module TrieEdit {
  import opened Common
  import opened TcamNode
  import opened Trie

  /** Node `n` with slot `s` set to `c` (`set_n0`, `set_n1` or `set_ndc`):
      that slot now holds `c` and nothing else about the node changes. */
  function SetChild(n: Node, s: Slot, c: Ptr): (r: Node)
    ensures Child(r, s) == c
    ensures forall t :: t != s ==> Child(r, t) == Child(n, t)
    ensures r.data == n.data && r.mask == n.mask && r.position == n.position
    ensures r.parent == n.parent && r.entries == n.entries
  {
    match s
    case Zero => n.(n0 := c)
    case One => n.(n1 := c)
    case DontCare => n.(ndc := c)
  }

  /** Every link of `n` to a node other than `moved` is still in `m`. */
  ghost predicate LinksKept(n: Node, m: Node, moved: nat)
  {
    forall s :: Child(n, s).Addr? && Child(n, s) != Addr(moved) ==> Child(m, s) == Child(n, s)
  }

  /** An edit from `nodes` to `nodes'` keeps, for every node that survives
      it, its pattern and position and every link to a node other than
      `moved`, and it keeps the parent of every such node but `moved`. */
  ghost predicate Kept(nodes: map<nat, Node>, nodes': map<nat, Node>, moved: nat)
  {
    forall b :: b in nodes && b in nodes' ==>
      nodes'[b].data == nodes[b].data && nodes'[b].mask == nodes[b].mask &&
      nodes'[b].position == nodes[b].position && LinksKept(nodes[b], nodes'[b], moved) &&
      (b != moved ==> nodes'[b].parent == nodes[b].parent)
  }

  /** A node an edit leaves alone keeps its local conditions when the edit
      keeps the links around it and neither its parent nor its children
      are freed or moved. */
  lemma Untouched(size: nat, root: Ptr, nodes: map<nat, Node>, root': Ptr, nodes': map<nat, Node>,
                  moved: nat, a: nat)
    requires NodeOk(size, root, nodes, a) && Kept(nodes, nodes', moved)
    requires a in nodes' && nodes'[a] == nodes[a] && a != moved
    requires root' == Addr(a) <==> root == Addr(a)
    requires nodes[a].parent.Addr? ==> nodes[a].parent.a in nodes'
    requires forall s :: Child(nodes[a], s).Addr? ==>
               Child(nodes[a], s).a in nodes' &&
               nodes'[Child(nodes[a], s).a].parent == nodes[Child(nodes[a], s).a].parent
    ensures NodeOk(size, root', nodes', a)
  {
    assert ChildOk(nodes, a, Zero) && ChildOk(nodes, a, One) && ChildOk(nodes, a, DontCare);
    var q := nodes[a].parent;
    if q.Addr? {
      assert LinksKept(nodes[q.a], nodes'[q.a], moved);
    }
  }

  /** A child points back at the node holding it. */
  lemma ChildBack(size: nat, root: Ptr, nodes: map<nat, Node>, a: nat, s: Slot)
    requires Shaped(size, root, nodes) && a in nodes && Child(nodes[a], s).Addr?
    ensures Child(nodes[a], s).a in nodes && nodes[Child(nodes[a], s).a].parent == Addr(a)
  {
    assert NodeOk(size, root, nodes, a);
    assert ChildOk(nodes, a, s);
  }

  /** A node that is not full and has a child earns its place. */
  lemma HasChild(size: nat, n: Node, s: Slot)
    requires n.position < size && Child(n, s).Addr?
    ensures Occupied(size, n)
  {
  }

  /** A full leaf holding entries is a trie on its own. */
  lemma LoneLeaf(size: nat, leaf: nat, n: Node)
    requires |n.data| == size && |n.mask| == size && WellFormed(n.data, n.mask) && n.position == size
    requires n.n0 == Null && n.n1 == Null && n.ndc == Null && n.parent == Null && n.entries != Null
    ensures TreeOk(size, Addr(leaf), map[leaf := n])
  {
    assert NodeOk(size, Addr(leaf), map[leaf := n], leaf);
  }

  /** Relinking the entry list of a full node keeps the trie well shaped;
      the node keeps earning its place as long as its list is not empty. */
  lemma HeadChanged(size: nat, root: Ptr, nodes: map<nat, Node>, f: nat, h: Ptr)
    requires TreeOk(size, root, nodes) && f in nodes && nodes[f].position == size
    ensures TreeOkBut(size, root, nodes[f := nodes[f].(entries := h)], if h == Null then Addr(f) else Null)
  {
    var nodes' := nodes[f := nodes[f].(entries := h)];
    HeadChangedShaped(size, root, nodes, f, h);
    forall a | a in nodes' && Addr(a) != (if h == Null then Addr(f) else Null)
      ensures Occupied(size, nodes'[a])
    {
      assert Occupied(size, nodes[a]);
    }
  }

  /** Relinking the entry list of a full node keeps every node's local
      conditions. */
  lemma HeadChangedShaped(size: nat, root: Ptr, nodes: map<nat, Node>, f: nat, h: Ptr)
    requires Shaped(size, root, nodes) && f in nodes && nodes[f].position == size
    ensures Shaped(size, root, nodes[f := nodes[f].(entries := h)])
  {
    var nodes' := nodes[f := nodes[f].(entries := h)];
    forall a | a in nodes' ensures NodeOk(size, root, nodes', a) {
      assert NodeOk(size, root, nodes, a);
      if a != f {
        Untouched(size, root, nodes, root, nodes', f, a);
      }
    }
  }

  /** Slot `s` of `nodes[p]` holds `c`, so a different node does not sit in it. */
  lemma SlotHolds(nodes: map<nat, Node>, p: nat, s: Slot, c: nat, a: nat, t: Slot)
    requires p in nodes && Child(nodes[p], s) == Addr(c) && Child(nodes[p], t) == Addr(a) && a != c
    ensures t != s
  {
  }

  /** The edit `insert` makes when the pattern's slot at the nearest node
      `p` is empty: `p` holds the new full leaf there, and the leaf points
      back at `p`. */
  ghost predicate AttachPre(size: nat, root: Ptr, nodes: map<nat, Node>, p: nat, leaf: nat, l: Node)
  {
    TreeOk(size, root, nodes) && p in nodes && leaf !in nodes &&
    |l.data| == size && |l.mask| == size && WellFormed(l.data, l.mask) && l.position == size &&
    l.n0 == Null && l.n1 == Null && l.ndc == Null && l.entries != Null &&
    nodes[p].position < size &&
    AgreeOn(nodes[p].data, nodes[p].mask, l.data, l.mask, 0, nodes[p].position) &&
    Child(nodes[p], SlotOf(l.data, l.mask, nodes[p].position)) == Null
  }

  ghost function WithLeaf(nodes: map<nat, Node>, p: nat, leaf: nat, l: Node): map<nat, Node>
    requires p in nodes && nodes[p].position < |l.data| && nodes[p].position < |l.mask|
  {
    nodes[p := SetChild(nodes[p], SlotOf(l.data, l.mask, nodes[p].position), Addr(leaf))]
         [leaf := l.(parent := Addr(p))]
  }

  /** The attached leaf meets its local conditions. */
  lemma AttachLeafOk(size: nat, root: Ptr, nodes: map<nat, Node>, p: nat, leaf: nat, l: Node)
    requires AttachPre(size, root, nodes, p, leaf, l)
    ensures NodeOk(size, root, WithLeaf(nodes, p, leaf, l), leaf)
  {
    assert NodeOk(size, root, nodes, p);
  }

  /** The nearest node keeps its shape and its place below its parent. */
  lemma AttachParentUp(size: nat, root: Ptr, nodes: map<nat, Node>, p: nat, leaf: nat, l: Node)
    requires AttachPre(size, root, nodes, p, leaf, l)
    ensures var nodes' := WithLeaf(nodes, p, leaf, l);
            p in nodes' && ShapeOk(size, nodes'[p]) && ParentOk(root, nodes', p)
  {
    var nodes' := WithLeaf(nodes, p, leaf, l);
    assert NodeOk(size, root, nodes, p);
    var q := nodes[p].parent;
    if q.Addr? {
      assert NodeOk(size, root, nodes, q.a);
      assert nodes'[q.a] == nodes[q.a];
    }
  }

  /** The nearest node holds the leaf in the pattern's slot and its other
      children as before. */
  lemma AttachParentDown(size: nat, root: Ptr, nodes: map<nat, Node>, p: nat, leaf: nat, l: Node, u: Slot)
    requires AttachPre(size, root, nodes, p, leaf, l)
    ensures var nodes' := WithLeaf(nodes, p, leaf, l);
            p in nodes' && ChildOk(nodes', p, u)
  {
    var nodes' := WithLeaf(nodes, p, leaf, l);
    if u != SlotOf(l.data, l.mask, nodes[p].position) {
      assert NodeOk(size, root, nodes, p);
      assert ChildOk(nodes, p, u);
      if Child(nodes[p], u).Addr? {
        var c := Child(nodes[p], u).a;
        assert nodes'[c] == nodes[c];
      }
    }
  }

  /** Every other node keeps its local conditions. */
  lemma AttachOtherOk(size: nat, root: Ptr, nodes: map<nat, Node>, p: nat, leaf: nat, l: Node, a: nat)
    requires AttachPre(size, root, nodes, p, leaf, l)
    requires a in nodes && a != p
    ensures NodeOk(size, root, WithLeaf(nodes, p, leaf, l), a)
  {
    assert NodeOk(size, root, nodes, a);
    Untouched(size, root, nodes, root, WithLeaf(nodes, p, leaf, l), p, a);
  }

  /** Attaching the leaf in the empty slot keeps the trie invariant. */
  lemma AttachOk(size: nat, root: Ptr, nodes: map<nat, Node>, p: nat, leaf: nat, l: Node)
    requires AttachPre(size, root, nodes, p, leaf, l)
    ensures TreeOk(size, root, WithLeaf(nodes, p, leaf, l))
  {
    var nodes' := WithLeaf(nodes, p, leaf, l);
    AttachNodesOk(size, root, nodes, p, leaf, l);
    forall a | a in nodes' ensures Occupied(size, nodes'[a]) {
      if a != leaf {
        assert Occupied(size, nodes[a]);
      }
    }
  }

  /** Attaching the leaf keeps every node's local conditions. */
  lemma AttachNodesOk(size: nat, root: Ptr, nodes: map<nat, Node>, p: nat, leaf: nat, l: Node)
    requires AttachPre(size, root, nodes, p, leaf, l)
    ensures Shaped(size, root, WithLeaf(nodes, p, leaf, l))
  {
    var nodes' := WithLeaf(nodes, p, leaf, l);
    forall a | a in nodes' ensures NodeOk(size, root, nodes', a) {
      if a == leaf {
        AttachLeafOk(size, root, nodes, p, leaf, l);
      } else if a == p {
        AttachParentUp(size, root, nodes, p, leaf, l);
        AttachParentDown(size, root, nodes, p, leaf, l, Zero);
        AttachParentDown(size, root, nodes, p, leaf, l, One);
        AttachParentDown(size, root, nodes, p, leaf, l, DontCare);
      } else {
        AttachOtherOk(size, root, nodes, p, leaf, l, a);
      }
    }
  }

  /** The pattern `insert_between` gives its new branching node: the bits
      of `(data, mask)` before `d`, and zeros from `d` on. */
  ghost predicate PrefixOf(size: nat, tdata: Bits, tmask: Bits, data: Bits, mask: Bits, d: nat)
  {
    |tdata| == size && |tmask| == size && d <= size && d <= |data| && d <= |mask| &&
    (forall i :: 0 <= i < d ==> tdata[i] == data[i] && tmask[i] == mask[i]) &&
    (forall i :: d <= i < size ==> !tdata[i] && !tmask[i])
  }

  /** The state `insert_between(less, more, leaf)` starts from: `more` is
      the root (when `less` is nullptr) or the child of `less` in the slot
      the leaf's pattern selects there; the leaf's pattern agrees with
      `less` before its position and with `more` on [0, d) but not at `d`,
      which lies strictly between their positions; `t` and the leaf are
      new addresses. */
  ghost predicate BetweenPre(size: nat, root: Ptr, nodes: map<nat, Node>, less: Ptr, more: nat,
                             leaf: nat, l: Node, t: nat, tdata: Bits, tmask: Bits, d: nat)
  {
    Shaped(size, root, nodes) &&
    |l.data| == size && |l.mask| == size && WellFormed(l.data, l.mask) && l.position == size &&
    l.n0 == Null && l.n1 == Null && l.ndc == Null && l.entries != Null &&
    leaf !in nodes && t !in nodes && leaf != t &&
    more in nodes && |nodes[more].data| == size && |nodes[more].mask| == size &&
    d < nodes[more].position && d < size &&
    AgreeOn(nodes[more].data, nodes[more].mask, l.data, l.mask, 0, d) &&
    (nodes[more].data[d] != l.data[d] || nodes[more].mask[d] != l.mask[d]) &&
    PrefixOf(size, tdata, tmask, l.data, l.mask, d) &&
    (less.Null? ==> root == Addr(more)) &&
    (less.Addr? ==>
       less.a in nodes && nodes[less.a].position < d &&
       AgreeOn(nodes[less.a].data, nodes[less.a].mask, l.data, l.mask, 0, nodes[less.a].position) &&
       Child(nodes[less.a], SlotOf(l.data, l.mask, nodes[less.a].position)) == Addr(more))
  }

  /** The new branching node: position `d`, parent `less`, `more` and the
      leaf in the slots their patterns select at `d`. */
  ghost function Branch(nodes: map<nat, Node>, less: Ptr, more: nat, leaf: nat, l: Node,
                        tdata: Bits, tmask: Bits, d: nat): Node
    requires more in nodes && d < |nodes[more].data| && d < |nodes[more].mask| && d < |l.data| && d < |l.mask|
  {
    var t0 := Node(tdata, tmask, d, Null, Null, Null, less, Null);
    SetChild(SetChild(t0, SlotOf(nodes[more].data, nodes[more].mask, d), Addr(more)),
             SlotOf(l.data, l.mask, d), Addr(leaf))
  }

  /** The node map `insert_between` leaves: `less` (or the root pointer)
      holds the branching node `t`, which holds `more` and the leaf. */
  ghost function Between(size: nat, root: Ptr, nodes: map<nat, Node>, less: Ptr, more: nat,
                         leaf: nat, l: Node, t: nat, tdata: Bits, tmask: Bits, d: nat): map<nat, Node>
    requires BetweenPre(size, root, nodes, less, more, leaf, l, t, tdata, tmask, d)
  {
    var n1 := if less.Addr?
              then nodes[less.a := SetChild(nodes[less.a], SlotOf(tdata, tmask, nodes[less.a].position), Addr(t))]
              else nodes;
    n1[more := nodes[more].(parent := Addr(t))]
      [t := Branch(nodes, less, more, leaf, l, tdata, tmask, d)]
      [leaf := l.(parent := Addr(t))]
  }

  /** The new branching node is well shaped and hangs from `less` (or is
      the new root). */
  lemma BetweenNewUp(size: nat, root: Ptr, nodes: map<nat, Node>, less: Ptr, more: nat,
                     leaf: nat, l: Node, t: nat, tdata: Bits, tmask: Bits, d: nat)
    requires BetweenPre(size, root, nodes, less, more, leaf, l, t, tdata, tmask, d)
    ensures var nodes' := Between(size, root, nodes, less, more, leaf, l, t, tdata, tmask, d);
            t in nodes' && ShapeOk(size, nodes'[t]) && ParentOk(if less.Addr? then root else Addr(t), nodes', t)
  {
    var nodes' := Between(size, root, nodes, less, more, leaf, l, t, tdata, tmask, d);
    if less.Addr? {
      assert nodes'[less.a] == SetChild(nodes[less.a], SlotOf(tdata, tmask, nodes[less.a].position), Addr(t));
    }
  }

  /** The new branching node holds `more` and the leaf in two different
      slots and nothing in the third. */
  lemma BetweenNewDown(size: nat, root: Ptr, nodes: map<nat, Node>, less: Ptr, more: nat,
                       leaf: nat, l: Node, t: nat, tdata: Bits, tmask: Bits, d: nat, u: Slot)
    requires BetweenPre(size, root, nodes, less, more, leaf, l, t, tdata, tmask, d)
    ensures var nodes' := Between(size, root, nodes, less, more, leaf, l, t, tdata, tmask, d);
            t in nodes' && ChildOk(nodes', t, u)
  {
    var nodes' := Between(size, root, nodes, less, more, leaf, l, t, tdata, tmask, d);
    var m := nodes[more];
    Widths(size, root, nodes, more);
    DistinctSlots(m.data, m.mask, l.data, l.mask, d);
    assert nodes'[more] == m.(parent := Addr(t));
  }

  /** The leaf meets its local conditions below the branching node. */
  lemma BetweenLeafOk(size: nat, root: Ptr, nodes: map<nat, Node>, less: Ptr, more: nat,
                      leaf: nat, l: Node, t: nat, tdata: Bits, tmask: Bits, d: nat)
    requires BetweenPre(size, root, nodes, less, more, leaf, l, t, tdata, tmask, d)
    ensures NodeOk(size, if less.Addr? then root else Addr(t),
                   Between(size, root, nodes, less, more, leaf, l, t, tdata, tmask, d), leaf)
  {
    assert root.Addr? ==> root.a in nodes;
  }

  /** `more` keeps its shape and now hangs from the branching node. */
  lemma BetweenMoreUp(size: nat, root: Ptr, nodes: map<nat, Node>, less: Ptr, more: nat,
                      leaf: nat, l: Node, t: nat, tdata: Bits, tmask: Bits, d: nat)
    requires BetweenPre(size, root, nodes, less, more, leaf, l, t, tdata, tmask, d)
    requires nodes[more].parent == less
    ensures var nodes' := Between(size, root, nodes, less, more, leaf, l, t, tdata, tmask, d);
            more in nodes' && ShapeOk(size, nodes'[more]) &&
            ParentOk(if less.Addr? then root else Addr(t), nodes', more)
  {
    var m := nodes[more];
    assert NodeOk(size, root, nodes, more);
    DistinctSlots(m.data, m.mask, l.data, l.mask, d);
  }

  /** `more` keeps its children. */
  lemma BetweenMoreDown(size: nat, root: Ptr, nodes: map<nat, Node>, less: Ptr, more: nat,
                        leaf: nat, l: Node, t: nat, tdata: Bits, tmask: Bits, d: nat, u: Slot)
    requires BetweenPre(size, root, nodes, less, more, leaf, l, t, tdata, tmask, d)
    ensures var nodes' := Between(size, root, nodes, less, more, leaf, l, t, tdata, tmask, d);
            more in nodes' && ChildOk(nodes', more, u)
  {
    var nodes' := Between(size, root, nodes, less, more, leaf, l, t, tdata, tmask, d);
    var m := nodes[more];
    assert NodeOk(size, root, nodes, more);
    assert ChildOk(nodes, more, u);
    if Child(m, u).Addr? {
      var c := Child(m, u).a;
      if less.Addr? {
        assert c != less.a;
      }
      assert nodes'[c] == nodes[c];
    }
  }

  /** `less` keeps its shape and its place below its own parent. */
  lemma BetweenLessUp(size: nat, root: Ptr, nodes: map<nat, Node>, less: Ptr, more: nat,
                      leaf: nat, l: Node, t: nat, tdata: Bits, tmask: Bits, d: nat)
    requires BetweenPre(size, root, nodes, less, more, leaf, l, t, tdata, tmask, d)
    requires less.Addr?
    ensures var nodes' := Between(size, root, nodes, less, more, leaf, l, t, tdata, tmask, d);
            less.a in nodes' && ShapeOk(size, nodes'[less.a]) && ParentOk(root, nodes', less.a)
  {
    var nodes' := Between(size, root, nodes, less, more, leaf, l, t, tdata, tmask, d);
    var p := less.a;
    var n := nodes[p];
    assert NodeOk(size, root, nodes, p);
    assert nodes'[p] == SetChild(n, SlotOf(tdata, tmask, n.position), Addr(t));
    var q := n.parent;
    if q.Addr? {
      assert NodeOk(size, root, nodes, q.a);
      assert nodes'[q.a] == nodes[q.a];
    }
  }

  /** `less` holds the branching node where it held `more`, and its other
      children as before. */
  lemma BetweenLessDown(size: nat, root: Ptr, nodes: map<nat, Node>, less: Ptr, more: nat,
                        leaf: nat, l: Node, t: nat, tdata: Bits, tmask: Bits, d: nat, u: Slot)
    requires BetweenPre(size, root, nodes, less, more, leaf, l, t, tdata, tmask, d)
    requires less.Addr?
    ensures var nodes' := Between(size, root, nodes, less, more, leaf, l, t, tdata, tmask, d);
            less.a in nodes' && ChildOk(nodes', less.a, u)
  {
    var nodes' := Between(size, root, nodes, less, more, leaf, l, t, tdata, tmask, d);
    var p := less.a;
    var n := nodes[p];
    var s := SlotOf(tdata, tmask, n.position);
    assert nodes'[p] == SetChild(n, s, Addr(t));
    if u == s {
      assert s == SlotOf(l.data, l.mask, n.position);
    } else {
      assert NodeOk(size, root, nodes, p);
      assert ChildOk(nodes, p, u);
      if Child(n, u).Addr? {
        var c := Child(n, u).a;
        assert nodes'[c] == nodes[c];
      }
    }
  }

  /** `more` hangs from `less` (or is the root when `less` is nullptr). */
  lemma BetweenMoreParent(size: nat, root: Ptr, nodes: map<nat, Node>, less: Ptr, more: nat,
                          leaf: nat, l: Node, t: nat, tdata: Bits, tmask: Bits, d: nat)
    requires BetweenPre(size, root, nodes, less, more, leaf, l, t, tdata, tmask, d)
    ensures nodes[more].parent == less
  {
    assert NodeOk(size, root, nodes, more);
    if less.Addr? {
      assert NodeOk(size, root, nodes, less.a);
      assert ChildOk(nodes, less.a, SlotOf(l.data, l.mask, nodes[less.a].position));
    }
  }

  /** The edit keeps every link but those of `more`'s parent to `more`. */
  lemma BetweenKept(size: nat, root: Ptr, nodes: map<nat, Node>, less: Ptr, more: nat,
                    leaf: nat, l: Node, t: nat, tdata: Bits, tmask: Bits, d: nat)
    requires BetweenPre(size, root, nodes, less, more, leaf, l, t, tdata, tmask, d)
    ensures Kept(nodes, Between(size, root, nodes, less, more, leaf, l, t, tdata, tmask, d), more)
  {
    var nodes' := Between(size, root, nodes, less, more, leaf, l, t, tdata, tmask, d);
    forall b | b in nodes && b in nodes'
      ensures LinksKept(nodes[b], nodes'[b], more)
    {
      if less == Addr(b) {
        assert nodes'[b] == SetChild(nodes[b], SlotOf(tdata, tmask, nodes[b].position), Addr(t));
        assert SlotOf(tdata, tmask, nodes[b].position) == SlotOf(l.data, l.mask, nodes[b].position);
      }
    }
  }

  /** Every node the edit does not touch keeps its local conditions. */
  lemma BetweenOtherOk(size: nat, root: Ptr, nodes: map<nat, Node>, less: Ptr, more: nat,
                       leaf: nat, l: Node, t: nat, tdata: Bits, tmask: Bits, d: nat, a: nat)
    requires BetweenPre(size, root, nodes, less, more, leaf, l, t, tdata, tmask, d)
    requires Kept(nodes, Between(size, root, nodes, less, more, leaf, l, t, tdata, tmask, d), more)
    requires nodes[more].parent == less
    requires a in nodes && a != more && less != Addr(a)
    ensures NodeOk(size, if less.Addr? then root else Addr(t),
                   Between(size, root, nodes, less, more, leaf, l, t, tdata, tmask, d), a)
  {
    var nodes' := Between(size, root, nodes, less, more, leaf, l, t, tdata, tmask, d);
    assert NodeOk(size, root, nodes, a);
    assert nodes'[a] == nodes[a];
    forall s | Child(nodes[a], s).Addr?
      ensures Child(nodes[a], s).a in nodes' &&
              nodes'[Child(nodes[a], s).a].parent == nodes[Child(nodes[a], s).a].parent
    {
      ChildBack(size, root, nodes, a, s);
    }
    Untouched(size, root, nodes, if less.Addr? then root else Addr(t), nodes', more, a);
  }

  /** Every node of the edited map meets its local conditions. */
  lemma BetweenNodeOk(size: nat, root: Ptr, nodes: map<nat, Node>, less: Ptr, more: nat,
                      leaf: nat, l: Node, t: nat, tdata: Bits, tmask: Bits, d: nat, a: nat)
    requires BetweenPre(size, root, nodes, less, more, leaf, l, t, tdata, tmask, d)
    requires a in Between(size, root, nodes, less, more, leaf, l, t, tdata, tmask, d)
    ensures NodeOk(size, if less.Addr? then root else Addr(t),
                   Between(size, root, nodes, less, more, leaf, l, t, tdata, tmask, d), a)
  {
    if a == t {
      BetweenNewUp(size, root, nodes, less, more, leaf, l, t, tdata, tmask, d);
      BetweenNewDown(size, root, nodes, less, more, leaf, l, t, tdata, tmask, d, Zero);
      BetweenNewDown(size, root, nodes, less, more, leaf, l, t, tdata, tmask, d, One);
      BetweenNewDown(size, root, nodes, less, more, leaf, l, t, tdata, tmask, d, DontCare);
    } else if a == leaf {
      BetweenLeafOk(size, root, nodes, less, more, leaf, l, t, tdata, tmask, d);
    } else if a == more {
      BetweenMoreParent(size, root, nodes, less, more, leaf, l, t, tdata, tmask, d);
      BetweenMoreUp(size, root, nodes, less, more, leaf, l, t, tdata, tmask, d);
      BetweenMoreDown(size, root, nodes, less, more, leaf, l, t, tdata, tmask, d, Zero);
      BetweenMoreDown(size, root, nodes, less, more, leaf, l, t, tdata, tmask, d, One);
      BetweenMoreDown(size, root, nodes, less, more, leaf, l, t, tdata, tmask, d, DontCare);
    } else if less == Addr(a) {
      BetweenLessUp(size, root, nodes, less, more, leaf, l, t, tdata, tmask, d);
      BetweenLessDown(size, root, nodes, less, more, leaf, l, t, tdata, tmask, d, Zero);
      BetweenLessDown(size, root, nodes, less, more, leaf, l, t, tdata, tmask, d, One);
      BetweenLessDown(size, root, nodes, less, more, leaf, l, t, tdata, tmask, d, DontCare);
    } else {
      BetweenKept(size, root, nodes, less, more, leaf, l, t, tdata, tmask, d);
      BetweenMoreParent(size, root, nodes, less, more, leaf, l, t, tdata, tmask, d);
      BetweenOtherOk(size, root, nodes, less, more, leaf, l, t, tdata, tmask, d, a);
    }
  }

  /** Every node of the edited map earns its place. */
  lemma BetweenOccupied(size: nat, root: Ptr, nodes: map<nat, Node>, less: Ptr, more: nat,
                        leaf: nat, l: Node, t: nat, tdata: Bits, tmask: Bits, d: nat, a: nat)
    requires TreeOk(size, root, nodes)
    requires BetweenPre(size, root, nodes, less, more, leaf, l, t, tdata, tmask, d)
    requires a in Between(size, root, nodes, less, more, leaf, l, t, tdata, tmask, d)
    ensures Occupied(size, Between(size, root, nodes, less, more, leaf, l, t, tdata, tmask, d)[a])
  {
    var nodes' := Between(size, root, nodes, less, more, leaf, l, t, tdata, tmask, d);
    if a == t {
      HasChild(size, nodes'[t], SlotOf(l.data, l.mask, d));
    } else if a == leaf {
    } else if less == Addr(a) {
      HasChild(size, nodes'[a], SlotOf(tdata, tmask, nodes[a].position));
    } else {
      assert Occupied(size, nodes[a]);
    }
  }

  /** `insert_between` keeps the trie invariant. */
  lemma BetweenOk(size: nat, root: Ptr, nodes: map<nat, Node>, less: Ptr, more: nat,
                  leaf: nat, l: Node, t: nat, tdata: Bits, tmask: Bits, d: nat)
    requires TreeOk(size, root, nodes)
    requires BetweenPre(size, root, nodes, less, more, leaf, l, t, tdata, tmask, d)
    ensures TreeOk(size, if less.Addr? then root else Addr(t),
                   Between(size, root, nodes, less, more, leaf, l, t, tdata, tmask, d))
  {
    var nodes' := Between(size, root, nodes, less, more, leaf, l, t, tdata, tmask, d);
    var root' := if less.Addr? then root else Addr(t);
    forall a | a in nodes' ensures NodeOk(size, root', nodes', a) {
      BetweenNodeOk(size, root, nodes, less, more, leaf, l, t, tdata, tmask, d, a);
    }
    forall a | a in nodes' ensures Occupied(size, nodes'[a]) {
      BetweenOccupied(size, root, nodes, less, more, leaf, l, t, tdata, tmask, d, a);
    }
  }

  /** The state `erase_node(n)` frees `n` in: the trie invariant with `n`
      excused, `n` without children or entries and below a parent. */
  ghost predicate DetachPre(size: nat, root: Ptr, nodes: map<nat, Node>, n: nat)
  {
    TreeOkBut(size, root, nodes, Addr(n)) && n in nodes &&
    nodes[n].n0 == Null && nodes[n].n1 == Null && nodes[n].ndc == Null && nodes[n].entries == Null &&
    nodes[n].parent.Addr? && nodes[n].parent.a in nodes &&
    nodes[nodes[n].parent.a].position < |nodes[n].data| && nodes[nodes[n].parent.a].position < |nodes[n].mask|
  }

  /** The slot of `n`'s parent that holds `n`. */
  ghost function UpSlot(nodes: map<nat, Node>, n: nat): Slot
    requires n in nodes && nodes[n].parent.Addr? && nodes[n].parent.a in nodes
    requires nodes[nodes[n].parent.a].position < |nodes[n].data| && nodes[nodes[n].parent.a].position < |nodes[n].mask|
  {
    SlotOf(nodes[n].data, nodes[n].mask, nodes[nodes[n].parent.a].position)
  }

  /** The node map `erase_node(n)` leaves before it climbs: `n` is freed and
      the slot of its parent that held it is cleared. */
  ghost function Detached(size: nat, root: Ptr, nodes: map<nat, Node>, n: nat): map<nat, Node>
    requires DetachPre(size, root, nodes, n)
  {
    var p := nodes[n].parent.a;
    (nodes - {n})[p := SetChild(nodes[p], UpSlot(nodes, n), Null)]
  }

  /** The same map, in the order `erase_node` builds it: first the parent's
      slot is cleared, then `n` is freed. */
  lemma DetachedInOrder(size: nat, root: Ptr, nodes: map<nat, Node>, n: nat)
    requires DetachPre(size, root, nodes, n)
    ensures var p := nodes[n].parent.a;
            Detached(size, root, nodes, n) == nodes[p := SetChild(nodes[p], UpSlot(nodes, n), Null)] - {n}
  {
    assert NodeOk(size, root, nodes, n);
  }

  /** Node `q` with every slot that holds `n` cleared, as the slot scan of
      `erase_node` leaves the parent. */
  function ClearChild(q: Node, n: nat): Node
  {
    q.(n0 := if q.n0 == Addr(n) then Null else q.n0,
       n1 := if q.n1 == Addr(n) then Null else q.n1,
       ndc := if q.ndc == Addr(n) then Null else q.ndc)
  }

  /** The node map `erase_node(n)` leaves: nothing changes while `n` has a
      child or an entry; otherwise `n` goes, its parent's slots that held it
      are cleared, and a parent left without any child is pruned in turn. */
  ghost function Pruned(nodes: map<nat, Node>, n: nat): map<nat, Node>
    decreases |nodes.Keys|
  {
    if n !in nodes then nodes
    else
      var x := nodes[n];
      if x.n0 != Null || x.n1 != Null || x.ndc != Null || x.entries != Null then nodes
      else if x.parent.Null? || x.parent.a !in nodes || x.parent.a == n then nodes - {n}
      else
        var p := x.parent.a;
        var q := ClearChild(nodes[p], n);
        KeysRemove(nodes[p := q], n);
        assert nodes[p := q].Keys == nodes.Keys;
        if q.n0 == Null && q.n1 == Null && q.ndc == Null then Pruned(nodes[p := q] - {n}, p)
        else nodes[p := q] - {n}
  }

  /** Every node of `nodes'` was a node of `nodes`, with the same pattern,
      position and parent: only nodes were removed and child slots changed. */
  ghost predicate Shrunk(nodes: map<nat, Node>, nodes': map<nat, Node>)
  {
    nodes'.Keys <= nodes.Keys &&
    forall a :: a in nodes' ==>
      nodes'[a].data == nodes[a].data && nodes'[a].mask == nodes[a].mask &&
      nodes'[a].position == nodes[a].position && nodes'[a].parent == nodes[a].parent
  }

  /** Shrinking twice is shrinking. */
  lemma ShrunkTrans(nodes: map<nat, Node>, nodes': map<nat, Node>, nodes'': map<nat, Node>)
    requires Shrunk(nodes, nodes') && Shrunk(nodes', nodes'')
    ensures Shrunk(nodes, nodes'')
  {
  }

  /** Pruning removes nodes and clears slots, and nothing else: the nodes
      that stay keep their pattern, position, parent and entry list, and a
      node that was pruned is gone. */
  lemma {:induction false} PrunedKept(nodes: map<nat, Node>, n: nat)
    ensures Shrunk(nodes, Pruned(nodes, n))
    ensures forall a :: a in Pruned(nodes, n) ==> Pruned(nodes, n)[a].entries == nodes[a].entries
    ensures (n in nodes && nodes[n].n0 == Null && nodes[n].n1 == Null && nodes[n].ndc == Null &&
             nodes[n].entries == Null) ==> n !in Pruned(nodes, n)
    decreases |nodes.Keys|
  {
    if n in nodes {
      var x := nodes[n];
      if x.n0 == Null && x.n1 == Null && x.ndc == Null && x.entries == Null &&
         x.parent.Addr? && x.parent.a in nodes && x.parent.a != n {
        var p := x.parent.a;
        var q := ClearChild(nodes[p], n);
        var rest := nodes[p := q] - {n};
        KeysRemove(nodes[p := q], n);
        assert nodes[p := q].Keys == nodes.Keys;
        if q.n0 == Null && q.n1 == Null && q.ndc == Null {
          PrunedKept(rest, p);
          assert Pruned(nodes, n) == Pruned(rest, p);
        }
      }
    }
  }

  /** One step of `erase_node` below a parent: pruning `n` is detaching it
      and then, when the parent is left without children, pruning the
      parent. */
  lemma PrunedDetached(size: nat, root: Ptr, nodes: map<nat, Node>, n: nat)
    requires DetachPre(size, root, nodes, n)
    ensures var p := nodes[n].parent.a;
            var nodes' := Detached(size, root, nodes, n);
            p in nodes' &&
            Pruned(nodes, n) == if nodes'[p].n0 == Null && nodes'[p].n1 == Null && nodes'[p].ndc == Null
                                then Pruned(nodes', p) else nodes'
  {
    assert NodeOk(size, root, nodes, n);
    ClearedSlot(size, root, nodes, n);
    DetachedInOrder(size, root, nodes, n);
  }

  /** Under the trie invariant the parent holds `n` in one slot only, so
      clearing every slot that holds `n` is clearing that slot. */
  lemma ClearedSlot(size: nat, root: Ptr, nodes: map<nat, Node>, n: nat)
    requires DetachPre(size, root, nodes, n)
    ensures var p := nodes[n].parent.a;
            ClearChild(nodes[p], n) == SetChild(nodes[p], UpSlot(nodes, n), Null)
  {
    OnlySlot(size, root, nodes, n, Zero);
    OnlySlot(size, root, nodes, n, One);
    OnlySlot(size, root, nodes, n, DontCare);
  }

  /** The parent keeps its shape and its place, and holds its other
      children as before. */
  lemma DetachParentOk(size: nat, root: Ptr, nodes: map<nat, Node>, n: nat)
    requires DetachPre(size, root, nodes, n)
    ensures NodeOk(size, root, Detached(size, root, nodes, n), nodes[n].parent.a)
  {
    var nodes' := Detached(size, root, nodes, n);
    var p := nodes[n].parent.a;
    var s := UpSlot(nodes, n);
    assert NodeOk(size, root, nodes, n);
    assert NodeOk(size, root, nodes, p);
    var q := nodes[p].parent;
    if q.Addr? {
      assert NodeOk(size, root, nodes, q.a);
      assert nodes'[q.a] == nodes[q.a];
    }
    forall u | u != s
      ensures ChildOk(nodes', p, u)
    {
      assert ChildOk(nodes, p, u);
      if Child(nodes[p], u).Addr? {
        var c := Child(nodes[p], u).a;
        assert c != n;
        assert nodes'[c] == nodes[c];
      }
    }
  }

  /** Freeing `n` keeps every link but the parent's link to `n`. */
  lemma DetachKept(size: nat, root: Ptr, nodes: map<nat, Node>, n: nat)
    requires DetachPre(size, root, nodes, n)
    ensures Kept(nodes, Detached(size, root, nodes, n), n)
  {
    var nodes' := Detached(size, root, nodes, n);
    var p := nodes[n].parent.a;
    assert nodes'[p] == SetChild(nodes[p], UpSlot(nodes, n), Null);
    assert NodeOk(size, root, nodes, n);
    ParentOf(size, root, nodes, n);
  }

  /** Every other node keeps its local conditions. */
  lemma DetachOtherOk(size: nat, root: Ptr, nodes: map<nat, Node>, n: nat, a: nat)
    requires DetachPre(size, root, nodes, n)
    requires Kept(nodes, Detached(size, root, nodes, n), n)
    requires a in nodes && a != n && a != nodes[n].parent.a
    ensures NodeOk(size, root, Detached(size, root, nodes, n), a)
  {
    var nodes' := Detached(size, root, nodes, n);
    assert NodeOk(size, root, nodes, a);
    var q := nodes[a].parent;
    if q.Addr? {
      assert root != Addr(a);
      ParentOf(size, root, nodes, a);
      assert q.a != n;
    }
    forall s | Child(nodes[a], s).Addr?
      ensures Child(nodes[a], s).a in nodes' &&
              nodes'[Child(nodes[a], s).a].parent == nodes[Child(nodes[a], s).a].parent
    {
      ChildBack(size, root, nodes, a, s);
    }
    Untouched(size, root, nodes, root, nodes', n, a);
  }

  /** Freeing a childless, entryless node below a parent keeps the trie
      invariant, except that the parent may be left without children, and
      then it is the node excused from earning its place. */
  lemma DetachOk(size: nat, root: Ptr, nodes: map<nat, Node>, n: nat)
    requires DetachPre(size, root, nodes, n)
    ensures var nodes' := Detached(size, root, nodes, n);
            var p := nodes[n].parent.a;
            p in nodes' &&
            TreeOkBut(size, root, nodes', if Occupied(size, nodes'[p]) then Null else Addr(p))
  {
    var nodes' := Detached(size, root, nodes, n);
    var p := nodes[n].parent.a;
    DetachKept(size, root, nodes, n);
    assert NodeOk(size, root, nodes, n);
    forall a | a in nodes' ensures NodeOk(size, root, nodes', a) {
      if a == p {
        DetachParentOk(size, root, nodes, n);
      } else {
        DetachOtherOk(size, root, nodes, n, a);
      }
    }
    forall a | a in nodes' && Addr(a) != (if Occupied(size, nodes'[p]) then Null else Addr(p))
      ensures Occupied(size, nodes'[a])
    {
      if a != p {
        assert nodes'[a] == nodes[a];
        assert Occupied(size, nodes[a]);
      }
    }
  }

  /** A childless root is the only node. */
  lemma LastNode(size: nat, root: Ptr, nodes: map<nat, Node>, n: nat)
    requires Shaped(size, root, nodes) && root == Addr(n) && n in nodes
    requires nodes[n].n0 == Null && nodes[n].n1 == Null && nodes[n].ndc == Null
    ensures nodes - {n} == map[]
  {
    if b :| b in nodes && b != n {
      ReachesRoot(size, root, nodes, b);
      ReachesVia(size, root, nodes, b, n);
      assert false;
    }
  }

  /** The parent of `n` holds it in one slot only, the one `n`'s pattern
      selects at the parent's position. */
  lemma OnlySlot(size: nat, root: Ptr, nodes: map<nat, Node>, n: nat, s: Slot)
    requires DetachPre(size, root, nodes, n)
    ensures Child(nodes[nodes[n].parent.a], s) == Addr(n) <==> s == UpSlot(nodes, n)
  {
    assert NodeOk(size, root, nodes, n);
    assert NodeOk(size, root, nodes, nodes[n].parent.a);
  }

  /** A node with a child or an entry earns its place, so excusing it
      changes nothing. */
  lemma InUse(size: nat, root: Ptr, nodes: map<nat, Node>, n: nat)
    requires TreeOkBut(size, root, nodes, Addr(n)) && n in nodes
    requires nodes[n].n0 != Null || nodes[n].n1 != Null || nodes[n].ndc != Null || nodes[n].entries != Null
    ensures TreeOk(size, root, nodes)
  {
    assert NodeOk(size, root, nodes, n);
    assert Occupied(size, nodes[n]);
  }

  /** A full leaf as `insert` makes it before linking it in: as wide as the
      trie, well formed, without children or parent, and with entries. */
  ghost predicate FreshLeaf(size: nat, l: Node)
  {
    |l.data| == size && |l.mask| == size && WellFormed(l.data, l.mask) && l.position == size &&
    l.n0 == Null && l.n1 == Null && l.ndc == Null && l.parent == Null && l.entries != Null
  }

  /** When `more` hangs below `less` in the slot a well-formed pattern
      selects there, and the pattern agrees with `less` before `less`'s
      position, then the pattern agrees with `more` up to and including
      that position: the branching point of the two lies below `less`. */
  lemma BranchPoint(size: nat, root: Ptr, nodes: map<nat, Node>, less: nat, more: nat, data: Bits, mask: Bits)
    requires Shaped(size, root, nodes) && less in nodes
    requires |data| == size && |mask| == size && WellFormed(data, mask) && nodes[less].position < size
    requires AgreeOn(nodes[less].data, nodes[less].mask, data, mask, 0, nodes[less].position)
    requires Child(nodes[less], SlotOf(data, mask, nodes[less].position)) == Addr(more)
    ensures more in nodes && nodes[less].position < nodes[more].position
    ensures AgreeOn(nodes[more].data, nodes[more].mask, data, mask, 0, nodes[less].position + 1)
  {
    var p := nodes[less].position;
    assert NodeOk(size, root, nodes, less);
    assert ChildOk(nodes, less, SlotOf(data, mask, p));
    Widths(size, root, nodes, more);
    SameSlotSameBits(nodes[more].data, nodes[more].mask, data, mask, p);
  }

  /** What `insert_between` knows when it has computed the common prefix
      `d` of `more` and the leaf: the prefix lies strictly between the
      positions of `less` and `more`, so the branching node fits there. */
  lemma BetweenReady(size: nat, root: Ptr, nodes: map<nat, Node>, less: Ptr, more: nat,
                     leaf: nat, l: Node, t: nat, tdata: Bits, tmask: Bits, d: nat)
    requires TreeOk(size, root, nodes) && more in nodes && FreshLeaf(size, l)
    requires leaf !in nodes && t !in nodes && leaf != t
    requires !AgreeOn(nodes[more].data, nodes[more].mask, l.data, l.mask, 0, nodes[more].position)
    requires less.Null? ==> root == Addr(more)
    requires less.Addr? ==>
               less.a in nodes && nodes[less.a].position < size &&
               AgreeOn(nodes[less.a].data, nodes[less.a].mask, l.data, l.mask, 0, nodes[less.a].position) &&
               Child(nodes[less.a], SlotOf(l.data, l.mask, nodes[less.a].position)) == Addr(more)
    requires |nodes[more].data| == size && |nodes[more].mask| == size
    requires PrefixOf(size, tdata, tmask, l.data, l.mask, d)
    requires AgreeOn(nodes[more].data, nodes[more].mask, l.data, l.mask, 0, d)
    requires d < size ==> nodes[more].data[d] != l.data[d] || nodes[more].mask[d] != l.mask[d]
    ensures BetweenPre(size, root, nodes, less, more, leaf, l, t, tdata, tmask, d)
  {
    Widths(size, root, nodes, more);
    if less.Addr? {
      BranchPoint(size, root, nodes, less.a, more, l.data, l.mask);
      assert nodes[less.a].position < d;
    }
    assert d < nodes[more].position;
  }

  /** `p` takes `c` in the slot `c`'s pattern selects at `p`'s position,
      and `c` points back at `p`: the `set_n0`/`set_n1`/`set_ndc` and
      `set_parent` pair every link `insert` and `insert_between` make. */
  ghost function Hung(nodes: map<nat, Node>, p: nat, c: nat): map<nat, Node>
    requires p in nodes && c in nodes && nodes[p].position < |nodes[c].data| && nodes[p].position < |nodes[c].mask|
  {
    nodes[p := SetChild(nodes[p], SlotOf(nodes[c].data, nodes[c].mask, nodes[p].position), Addr(c))]
         [c := nodes[c].(parent := Addr(p))]
  }

  /** Attaching the leaf is hanging it below the nearest node. */
  lemma WithLeafHung(nodes: map<nat, Node>, p: nat, leaf: nat, l: Node)
    requires p in nodes && leaf !in nodes && nodes[p].position < |l.data| && nodes[p].position < |l.mask|
    ensures WithLeaf(nodes, p, leaf, l) == Hung(nodes[leaf := l], p, leaf)
  {
  }

  /** Both ends of a link to be made are live and distinct, and the
      child's pattern is wide enough to select a slot at the parent. */
  ghost predicate CanHang(nodes: map<nat, Node>, p: nat, c: nat)
  {
    p in nodes && c in nodes && p != c && nodes[p].position < |nodes[c].data| && nodes[p].position < |nodes[c].mask|
  }

  /** The links `insert_between` makes once the branching node `t` exists:
      `t` below `less` (when there is one), then `more` and the leaf below
      `t`. */
  ghost function BranchLinks(nodes: map<nat, Node>, less: Ptr, t: nat, more: nat, leaf: nat): map<nat, Node>
    requires CanHang(nodes, t, more) && CanHang(nodes, t, leaf)
    requires less.Addr? ==> CanHang(nodes, less.a, t)
  {
    var n2 := if less.Addr? then Hung(nodes, less.a, t) else nodes;
    Hung(Hung(n2, t, more), t, leaf)
  }

  /** `insert_between` is three hangings after allocating the branching
      node. */
  lemma BetweenHung(size: nat, root: Ptr, nodes: map<nat, Node>, less: Ptr, more: nat,
                    leaf: nat, l: Node, t: nat, tdata: Bits, tmask: Bits, d: nat)
    requires BetweenPre(size, root, nodes, less, more, leaf, l, t, tdata, tmask, d)
    ensures var n1 := nodes[leaf := l][t := Node(tdata, tmask, d, Null, Null, Null, Null, Null)];
            CanHang(n1, t, more) && CanHang(n1, t, leaf) && (less.Addr? ==> CanHang(n1, less.a, t)) &&
            Between(size, root, nodes, less, more, leaf, l, t, tdata, tmask, d) == BranchLinks(n1, less, t, more, leaf)
  {
  }

  /** `insert_between(less, more, leaf)` is done: it started from a state
      `BetweenPre` describes, the nodes are as `Between` describes, and the
      root is the branching node `t` when `less` is nullptr and as it was
      otherwise. */
  ghost predicate BetweenMade(size: nat, root: Ptr, nodes: map<nat, Node>, less: Ptr, more: nat,
                              leaf: nat, l: Node, t: nat, tdata: Bits, tmask: Bits, d: nat,
                              root': Ptr, nodes': map<nat, Node>)
  {
    BetweenPre(size, root, nodes, less, more, leaf, l, t, tdata, tmask, d) &&
    nodes' == Between(size, root, nodes, less, more, leaf, l, t, tdata, tmask, d) &&
    root' == if less.Null? then Addr(t) else root
  }

  /** The three hangings after allocating the branching node finish
      `insert_between`. */
  lemma BetweenMadeByLinks(size: nat, root: Ptr, nodes: map<nat, Node>, less: Ptr, more: nat,
                           leaf: nat, l: Node, t: nat, tdata: Bits, tmask: Bits, d: nat,
                           root': Ptr, nodes': map<nat, Node>)
    requires BetweenPre(size, root, nodes, less, more, leaf, l, t, tdata, tmask, d)
    requires var n1 := nodes[leaf := l][t := Node(tdata, tmask, d, Null, Null, Null, Null, Null)];
             CanHang(n1, t, more) && CanHang(n1, t, leaf) && (less.Addr? ==> CanHang(n1, less.a, t)) &&
             nodes' == BranchLinks(n1, less, t, more, leaf)
    requires root' == if less.Null? then Addr(t) else root
    ensures BetweenMade(size, root, nodes, less, more, leaf, l, t, tdata, tmask, d, root', nodes')
  {
    BetweenHung(size, root, nodes, less, more, leaf, l, t, tdata, tmask, d);
  }

  /** What `insert_between` leaves, link by link: the branching node `t`
      has the prefix pattern, position `d`, parent `less` and no entries; it
      holds `more` and the leaf in two different slots and nothing in the
      third; both point back at `t`; `less` holds `t` in the slot that held
      `more`; every other node is as it was. */
  lemma BetweenLinks(size: nat, root: Ptr, nodes: map<nat, Node>, less: Ptr, more: nat,
                     leaf: nat, l: Node, t: nat, tdata: Bits, tmask: Bits, d: nat)
    requires BetweenPre(size, root, nodes, less, more, leaf, l, t, tdata, tmask, d)
    ensures var nodes' := Between(size, root, nodes, less, more, leaf, l, t, tdata, tmask, d);
            var m := nodes[more];
            var sm, sl := SlotOf(m.data, m.mask, d), SlotOf(l.data, l.mask, d);
            nodes'.Keys == nodes.Keys + {leaf, t} && sm != sl &&
            nodes'[t].data == tdata && nodes'[t].mask == tmask && nodes'[t].position == d &&
            nodes'[t].parent == less && nodes'[t].entries == Null &&
            Child(nodes'[t], sm) == Addr(more) && Child(nodes'[t], sl) == Addr(leaf) &&
            (forall s :: s != sm && s != sl ==> Child(nodes'[t], s) == Null) &&
            nodes'[more] == m.(parent := Addr(t)) && nodes'[leaf] == l.(parent := Addr(t)) &&
            (less.Addr? ==>
               var q := nodes[less.a];
               nodes'[less.a] == SetChild(q, SlotOf(l.data, l.mask, q.position), Addr(t)) &&
               Child(q, SlotOf(l.data, l.mask, q.position)) == Addr(more)) &&
            forall a :: a in nodes && a != more && less != Addr(a) ==> nodes'[a] == nodes[a]
  {
    var m := nodes[more];
    Widths(size, root, nodes, more);
    DistinctSlots(m.data, m.mask, l.data, l.mask, d);
    if less.Addr? {
      var q := nodes[less.a];
      assert SlotOf(tdata, tmask, q.position) == SlotOf(l.data, l.mask, q.position);
      assert NodeOk(size, root, nodes, less.a);
    }
  }
}
