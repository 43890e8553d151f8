/** The shape of the path-compressed ternary trie `soft_tcam` keeps in its
    node store. A node at position `p` stands for every pattern that agrees
    with its (data, mask) on bits [0, p); bit `p` then chooses one of its
    three children (`n0`, `n1`, or `ndc` for a wildcard bit). A node whose
    position equals the width is full: it holds the rules of exactly one
    pattern and has no children. */
module Trie {
  import opened Common
  import opened TcamEntry
  import opened TcamNode

  /** `n` is as wide as the trie and its pattern is well formed; its
      position is at most the width; a full node has no children and a node
      that is not full holds no entries; bits at and above the position of a
      node are zero. */
  ghost predicate ShapeOk(size: nat, n: Node)
  {
    |n.data| == size && |n.mask| == size && WellFormed(n.data, n.mask) && n.position <= size &&
    (forall i :: n.position <= i < size ==> !n.data[i] && !n.mask[i]) &&
    (n.position == size ==> n.n0 == Null && n.n1 == Null && n.ndc == Null) &&
    (n.position < size ==> n.entries == Null)
  }

  /** `c` hangs correctly below `n` (at address `a`) in slot `s`: it points
      back at `a`, sits deeper, is the pattern that slot selects at `n`'s
      position, and agrees with `n` on every bit before that position. */
  ghost predicate ChildLink(n: Node, a: nat, c: Node, s: Slot)
  {
    c.parent == Addr(a) && n.position < c.position &&
    n.position < |c.data| && n.position < |c.mask| &&
    SlotOf(c.data, c.mask, n.position) == s &&
    AgreeOn(c.data, c.mask, n.data, n.mask, 0, n.position)
  }

  /** Slot `s` of node `a` is empty or holds a live node hanging correctly there. */
  ghost predicate ChildOk(nodes: map<nat, Node>, a: nat, s: Slot)
    requires a in nodes
  {
    var c := Child(nodes[a], s);
    c.Addr? ==> c.a in nodes && ChildLink(nodes[a], a, nodes[c.a], s)
  }

  /** Only the root lacks a parent, and a parent holds the node in the slot
      the node's own pattern selects at the parent's position. */
  ghost predicate ParentOk(root: Ptr, nodes: map<nat, Node>, a: nat)
    requires a in nodes
  {
    var n := nodes[a];
    (n.parent == Null <==> root == Addr(a)) &&
    (n.parent.Addr? ==>
       n.parent.a in nodes && nodes[n.parent.a].position < n.position &&
       nodes[n.parent.a].position < |n.data| && nodes[n.parent.a].position < |n.mask| &&
       Child(nodes[n.parent.a], SlotOf(n.data, n.mask, nodes[n.parent.a].position)) == Addr(a))
  }

  /** Every local condition on node `a`. */
  ghost predicate NodeOk(size: nat, root: Ptr, nodes: map<nat, Node>, a: nat)
  {
    a in nodes && ShapeOk(size, nodes[a]) && ParentOk(root, nodes, a) &&
    ChildOk(nodes, a, Zero) && ChildOk(nodes, a, One) && ChildOk(nodes, a, DontCare)
  }

  /** The root is live and every live node meets its local conditions. */
  ghost predicate Shaped(size: nat, root: Ptr, nodes: map<nat, Node>)
  {
    (root.Addr? ==> root.a in nodes) &&
    forall a {:trigger NodeOk(size, root, nodes, a)} :: a in nodes ==> NodeOk(size, root, nodes, a)
  }

  /** A node earns its place: a full node holds at least one entry, any
      other node has at least one child. */
  ghost predicate Occupied(size: nat, n: Node)
  {
    if n.position == size then n.entries != Null else n.n0 != Null || n.n1 != Null || n.ndc != Null
  }

  /** The trie invariant with node `x` excused from earning its place (the
      state `erase_node` works in); `x == Null` excuses nobody. */
  ghost predicate TreeOkBut(size: nat, root: Ptr, nodes: map<nat, Node>, x: Ptr)
  {
    Shaped(size, root, nodes) &&
    forall a {:trigger Occupied(size, nodes[a])} :: a in nodes && Addr(a) != x ==> Occupied(size, nodes[a])
  }

  /** The trie invariant. */
  ghost predicate TreeOk(size: nat, root: Ptr, nodes: map<nat, Node>)
  {
    TreeOkBut(size, root, nodes, Null)
  }

  /** `b` lies in the subtree of `a`: climbing parent pointers from `b`
      reaches `a`. */
  ghost predicate Reaches(nodes: map<nat, Node>, b: nat, a: nat)
    decreases if b in nodes then nodes[b].position else 0
  {
    b in nodes &&
    (b == a ||
     (nodes[b].parent.Addr? && nodes[b].parent.a in nodes &&
      nodes[nodes[b].parent.a].position < nodes[b].position &&
      Reaches(nodes, nodes[b].parent.a, a)))
  }

  /** The subtree rooted at `a`. */
  ghost function Sub(nodes: map<nat, Node>, a: nat): set<nat>
  {
    set b | b in nodes && Reaches(nodes, b, a)
  }

  /** The node `b`'s parent, when the invariant says it has one. */
  lemma ParentOf(size: nat, root: Ptr, nodes: map<nat, Node>, b: nat)
    requires Shaped(size, root, nodes) && b in nodes && root != Addr(b)
    ensures nodes[b].parent.Addr? && nodes[b].parent.a in nodes
    ensures var p := nodes[b].parent.a;
            nodes[p].position < nodes[b].position &&
            nodes[p].position < |nodes[b].data| && nodes[p].position < |nodes[b].mask| &&
            ChildLink(nodes[p], p, nodes[b], SlotOf(nodes[b].data, nodes[b].mask, nodes[p].position)) &&
            Child(nodes[p], SlotOf(nodes[b].data, nodes[b].mask, nodes[p].position)) == Addr(b)
  {
    assert NodeOk(size, root, nodes, b);
    var p := nodes[b].parent.a;
    assert NodeOk(size, root, nodes, p);
    var s := SlotOf(nodes[b].data, nodes[b].mask, nodes[p].position);
    assert ChildOk(nodes, p, s);
  }

  /** Every live node lies in the subtree of the root. */
  lemma {:induction false} ReachesRoot(size: nat, root: Ptr, nodes: map<nat, Node>, b: nat)
    requires Shaped(size, root, nodes) && b in nodes
    ensures root.Addr? && Reaches(nodes, b, root.a)
    decreases nodes[b].position
  {
    assert NodeOk(size, root, nodes, b);
    if root != Addr(b) {
      ParentOf(size, root, nodes, b);
      ReachesRoot(size, root, nodes, nodes[b].parent.a);
    }
  }

  /** A live node is as wide as the trie, its pattern is well formed, and
      its position is at most the width. */
  lemma Widths(size: nat, root: Ptr, nodes: map<nat, Node>, a: nat)
    requires Shaped(size, root, nodes) && a in nodes
    ensures |nodes[a].data| == size && |nodes[a].mask| == size && nodes[a].position <= size
    ensures WellFormed(nodes[a].data, nodes[a].mask)
  {
    assert NodeOk(size, root, nodes, a);
  }

  /** The root is null exactly when the trie has no nodes. */
  lemma RootIffEmpty(size: nat, root: Ptr, nodes: map<nat, Node>)
    requires Shaped(size, root, nodes)
    ensures root == Null <==> nodes == map[]
  {
    if root == Null && nodes != map[] {
      var b :| b in nodes;
      ReachesRoot(size, root, nodes, b);
    }
  }

  /** A node of a subtree sits no higher than its top and agrees with it on
      every bit before the top's position. */
  lemma {:induction false} ReachesAgree(size: nat, root: Ptr, nodes: map<nat, Node>, b: nat, a: nat)
    requires Shaped(size, root, nodes) && Reaches(nodes, b, a)
    ensures a in nodes && nodes[a].position <= nodes[b].position
    ensures b != a ==> nodes[a].position < nodes[b].position
    ensures AgreeOn(nodes[b].data, nodes[b].mask, nodes[a].data, nodes[a].mask, 0, nodes[a].position)
    decreases nodes[b].position
  {
    assert NodeOk(size, root, nodes, b);
    if b != a {
      var p := nodes[b].parent.a;
      assert root != Addr(b);
      ParentOf(size, root, nodes, b);
      ReachesAgree(size, root, nodes, p, a);
    }
  }

  /** Below its top `a`, a subtree continues through the child of `a` in
      the slot the lower node's own pattern selects at `a`'s position. */
  lemma {:induction false} ReachesVia(size: nat, root: Ptr, nodes: map<nat, Node>, b: nat, a: nat)
    requires Shaped(size, root, nodes) && Reaches(nodes, b, a) && b != a
    ensures a in nodes && nodes[a].position < |nodes[b].data| && nodes[a].position < |nodes[b].mask|
    ensures var c := Child(nodes[a], SlotOf(nodes[b].data, nodes[b].mask, nodes[a].position));
            c.Addr? && c.a in nodes && Reaches(nodes, b, c.a)
    decreases nodes[b].position
  {
    assert NodeOk(size, root, nodes, b);
    var p := nodes[b].parent.a;
    assert root != Addr(b);
    ParentOf(size, root, nodes, b);
    ReachesAgree(size, root, nodes, b, a);
    if p != a {
      ReachesVia(size, root, nodes, p, a);
      ReachesAgree(size, root, nodes, p, a);
      var pos := nodes[a].position;
      assert nodes[b].data[pos] == nodes[p].data[pos] && nodes[b].mask[pos] == nodes[p].mask[pos];
    }
  }

  /** A full node's subtree is the node alone. */
  lemma FullLeaf(size: nat, root: Ptr, nodes: map<nat, Node>, b: nat, a: nat)
    requires Shaped(size, root, nodes) && Reaches(nodes, b, a)
    requires a in nodes && nodes[a].position == size
    ensures b == a
  {
    assert NodeOk(size, root, nodes, a);
    if b != a {
      ReachesVia(size, root, nodes, b, a);
    }
  }

  /** The child in any slot of `a` lies in the subtree of `a`. */
  lemma ChildReaches(size: nat, root: Ptr, nodes: map<nat, Node>, a: nat, s: Slot)
    requires Shaped(size, root, nodes) && a in nodes && Child(nodes[a], s).Addr?
    ensures Child(nodes[a], s).a in nodes && Reaches(nodes, Child(nodes[a], s).a, a)
  {
    assert NodeOk(size, root, nodes, a);
    assert ChildOk(nodes, a, s);
    var c := Child(nodes[a], s).a;
    assert Reaches(nodes, a, a);
  }

  /** Subtrees nest. */
  lemma {:induction false} ReachesTrans(nodes: map<nat, Node>, c: nat, b: nat, a: nat)
    requires Reaches(nodes, c, b) && Reaches(nodes, b, a)
    ensures Reaches(nodes, c, a)
    decreases nodes[c].position
  {
    if c != b {
      ReachesTrans(nodes, nodes[c].parent.a, b, a);
    }
  }

  /** Two full nodes of one subtree with the same pattern are one node. */
  lemma {:induction false} FullUniqueBelow(size: nat, root: Ptr, nodes: map<nat, Node>, f: nat, g: nat, a: nat)
    requires Shaped(size, root, nodes) && Reaches(nodes, f, a) && Reaches(nodes, g, a)
    requires nodes[f].position == size && nodes[g].position == size
    requires nodes[f].data == nodes[g].data && nodes[f].mask == nodes[g].mask
    ensures f == g
    decreases if a in nodes && nodes[a].position <= size then size - nodes[a].position else 0
  {
    ReachesAgree(size, root, nodes, f, a);
    ReachesAgree(size, root, nodes, g, a);
    assert NodeOk(size, root, nodes, a);
    if f == a {
      FullLeaf(size, root, nodes, g, a);
    } else if g == a {
      FullLeaf(size, root, nodes, f, a);
    } else {
      ReachesVia(size, root, nodes, f, a);
      ReachesVia(size, root, nodes, g, a);
      var c := Child(nodes[a], SlotOf(nodes[f].data, nodes[f].mask, nodes[a].position)).a;
      ReachesAgree(size, root, nodes, f, c);
      ChildReaches(size, root, nodes, a, SlotOf(nodes[f].data, nodes[f].mask, nodes[a].position));
      ReachesAgree(size, root, nodes, c, a);
      assert NodeOk(size, root, nodes, c);
      FullUniqueBelow(size, root, nodes, f, g, c);
    }
  }

  /** The trie holds at most one full node per pattern. */
  lemma FullUnique(size: nat, root: Ptr, nodes: map<nat, Node>, f: nat, g: nat)
    requires Shaped(size, root, nodes) && f in nodes && g in nodes
    requires nodes[f].position == size && nodes[g].position == size
    requires nodes[f].data == nodes[g].data && nodes[f].mask == nodes[g].mask
    ensures f == g
  {
    ReachesRoot(size, root, nodes, f);
    ReachesRoot(size, root, nodes, g);
    FullUniqueBelow(size, root, nodes, f, g, root.a);
  }
}
