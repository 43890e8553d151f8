/** The facts behind `find_nearest_node`: where the walk from the root
    along a pattern's slots stops, and why the node it stops at is the one
    `insert` and `erase` need. */
module TcamNearest {
  import opened Common
  import opened TcamNode
  import opened Trie

  /** `f` is a full node carrying exactly the pattern (data, mask). */
  ghost predicate Exact(size: nat, nodes: map<nat, Node>, data: Bits, mask: Bits, f: nat)
  {
    f in nodes && nodes[f].position == size && nodes[f].data == data && nodes[f].mask == mask
  }

  /** Every full node carrying the pattern lies below `node`. */
  ghost predicate ExactBelow(size: nat, nodes: map<nat, Node>, data: Bits, mask: Bits, node: nat)
  {
    forall f {:trigger Exact(size, nodes, data, mask, f)} :: Exact(size, nodes, data, mask, f) ==> Reaches(nodes, f, node)
  }

  /** The walk came to `node` from its parent, which sits at `position`,
      agrees with the pattern before it, and holds `node` in the slot the
      pattern selects there. */
  ghost predicate NearestParent(nodes: map<nat, Node>, data: Bits, mask: Bits, node: nat, position: nat)
    requires node in nodes
  {
    var p := nodes[node].parent;
    p.Addr? && p.a in nodes && nodes[p.a].position == position &&
    position < |data| && position < |mask| &&
    AgreeOn(nodes[p.a].data, nodes[p.a].mask, data, mask, 0, position) &&
    Child(nodes[p.a], SlotOf(data, mask, position)) == Addr(node)
  }

  /** What `find_nearest_node` promises about its answer `r`:
      - nullptr when the trie is empty or the root already disagrees with
        the pattern before its position;
      - otherwise a node that agrees with the pattern before its own
        position, which is either full (and then carries exactly the
        pattern) or has, in the slot the pattern selects, no child or a
        child that disagrees with the pattern before the child's position;
      - and the full node carrying exactly the pattern, if there is one. */
  ghost predicate NearestResult(size: nat, root: Ptr, nodes: map<nat, Node>, data: Bits, mask: Bits, r: Ptr)
    requires |data| == size && |mask| == size
  {
    (root == Null ==> r == Null) &&
    (r == Null && root.Addr? ==>
       root.a in nodes &&
       !AgreeOn(nodes[root.a].data, nodes[root.a].mask, data, mask, 0, nodes[root.a].position)) &&
    (r.Addr? ==>
       r.a in nodes && nodes[r.a].position <= size &&
       AgreeOn(nodes[r.a].data, nodes[r.a].mask, data, mask, 0, nodes[r.a].position)) &&
    (r.Addr? && nodes[r.a].position == size ==> nodes[r.a].data == data && nodes[r.a].mask == mask) &&
    (r.Addr? && nodes[r.a].position < size ==>
       var c := Child(nodes[r.a], SlotOf(data, mask, nodes[r.a].position));
       c.Null? ||
       (c.a in nodes &&
        !AgreeOn(nodes[c.a].data, nodes[c.a].mask, data, mask, 0, nodes[c.a].position))) &&
    (forall f :: Exact(size, nodes, data, mask, f) ==> r == Addr(f))
  }

  /** The walk starts at the root, above every full node. */
  lemma NearestStart(size: nat, root: Ptr, nodes: map<nat, Node>, data: Bits, mask: Bits)
    requires Shaped(size, root, nodes) && root.Addr?
    ensures root.a in nodes && ExactBelow(size, nodes, data, mask, root.a)
  {
    forall f | Exact(size, nodes, data, mask, f)
      ensures Reaches(nodes, f, root.a)
    {
      ReachesRoot(size, root, nodes, f);
    }
  }

  /** A node that disagrees with the pattern before its position rules out
      its whole subtree, and its parent is the answer. */
  lemma NearestMismatch(size: nat, root: Ptr, nodes: map<nat, Node>, data: Bits, mask: Bits,
                        node: nat, position: nat)
    requires Shaped(size, root, nodes) && |data| == size && |mask| == size
    requires node in nodes && position <= nodes[node].position <= size
    requires AgreeOn(nodes[node].data, nodes[node].mask, data, mask, 0, position)
    requires !AgreeOn(nodes[node].data, nodes[node].mask, data, mask, position, nodes[node].position)
    requires root == Addr(node) || NearestParent(nodes, data, mask, node, position)
    requires ExactBelow(size, nodes, data, mask, node)
    ensures NearestResult(size, root, nodes, data, mask, nodes[node].parent)
  {
    assert NodeOk(size, root, nodes, node);
    RootIffEmpty(size, root, nodes);
    forall f | f in nodes && Reaches(nodes, f, node)
      ensures !Exact(size, nodes, data, mask, f)
    {
      ReachesAgree(size, root, nodes, f, node);
    }
    var p := nodes[node].parent;
    if p.Addr? {
      assert NodeOk(size, root, nodes, p.a);
    }
  }

  /** A full node that agrees with the pattern carries it, and nothing
      else lies below it. */
  lemma NearestFull(size: nat, root: Ptr, nodes: map<nat, Node>, data: Bits, mask: Bits, node: nat)
    requires Shaped(size, root, nodes) && |data| == size && |mask| == size
    requires node in nodes && nodes[node].position == size
    requires AgreeOn(nodes[node].data, nodes[node].mask, data, mask, 0, size)
    requires ExactBelow(size, nodes, data, mask, node)
    ensures NearestResult(size, root, nodes, data, mask, Addr(node))
  {
    assert NodeOk(size, root, nodes, node);
    assert nodes[node].data == data && nodes[node].mask == mask;
    forall f | Exact(size, nodes, data, mask, f)
      ensures f == node
    {
      FullLeaf(size, root, nodes, f, node);
    }
    RootIffEmpty(size, root, nodes);
  }

  /** At a node that is not full and agrees with the pattern before its
      position, the walk either stops (the pattern's slot is empty) or
      moves on to the child in that slot, which keeps every invariant. */
  lemma NearestStep(size: nat, root: Ptr, nodes: map<nat, Node>, data: Bits, mask: Bits, node: nat)
    requires Shaped(size, root, nodes) && |data| == size && |mask| == size
    requires node in nodes && nodes[node].position < size
    requires AgreeOn(nodes[node].data, nodes[node].mask, data, mask, 0, nodes[node].position)
    requires ExactBelow(size, nodes, data, mask, node)
    ensures var pos := nodes[node].position;
            var c := Child(nodes[node], SlotOf(data, mask, pos));
            (c.Null? ==> NearestResult(size, root, nodes, data, mask, Addr(node))) &&
            (c.Addr? ==>
               c.a in nodes && pos <= nodes[c.a].position <= size &&
               AgreeOn(nodes[c.a].data, nodes[c.a].mask, data, mask, 0, pos) &&
               NearestParent(nodes, data, mask, c.a, pos) &&
               ExactBelow(size, nodes, data, mask, c.a))
  {
    var pos := nodes[node].position;
    var s := SlotOf(data, mask, pos);
    var c := Child(nodes[node], s);
    assert NodeOk(size, root, nodes, node);
    assert ChildOk(nodes, node, s);
    forall f | Exact(size, nodes, data, mask, f)
      ensures c.Addr? && Reaches(nodes, f, c.a)
    {
      assert f != node;
      ReachesVia(size, root, nodes, f, node);
    }
    if c.Addr? {
      assert NodeOk(size, root, nodes, c.a);
    } else {
      RootIffEmpty(size, root, nodes);
    }
  }
}
