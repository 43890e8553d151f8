/** The search `find_entry` performs, as a recursive function over the trie,
    and the proof that it yields the head entry of highest priority among
    the full nodes whose pattern the key satisfies. */
module TcamSearch {
  import opened Common
  import opened TcamEntry
  import opened TcamNode
  import opened EntryList
  import opened Trie
  import opened TcamRules

  /** The child pointer `c` of node `a` when it leads to a deeper live node
      (as every child of a well-shaped trie does), nullptr otherwise. */
  ghost function Down(size: nat, nodes: map<nat, Node>, a: nat, c: Ptr): Ptr
    requires a in nodes
  {
    if c.Addr? && c.a in nodes && nodes[a].position < nodes[c.a].position <= size then c else Null
  }

  /** The child the key's own bit selects at `n`'s position. */
  function KeyChild(n: Node, key: Bits): Ptr
    requires n.position < |key|
  {
    if key[n.position] then n.n1 else n.n0
  }

  /** The candidate after meeting a full node whose list starts at `head`:
      only a strictly higher priority displaces the current candidate. */
  function Better<T>(entries: map<nat, Entry<T>>, best: Ptr, head: Ptr): Ptr
  {
    if best == Null || PriorityAt(entries, head) > PriorityAt(entries, best) then head else best
  }

  /** The candidate after searching the subtree of `a` for `key`, entered
      with bits [0, prev) already checked and `best` as candidate: check
      bits [prev, position); at a full node weigh its head entry; otherwise
      search the key's own child first and the don't-care child second. */
  ghost function Search<T>(size: nat, nodes: map<nat, Node>, entries: map<nat, Entry<T>>, key: Bits,
                           a: nat, prev: nat, best: Ptr): Ptr
    requires a in nodes
    decreases if nodes[a].position <= size then size - nodes[a].position else 0
  {
    var n := nodes[a];
    if n.position > size || |key| != size || !MatchesOn(key, n.data, n.mask, prev, n.position) then best
    else if n.position == size then Better(entries, best, n.entries)
    else
      var kc := Down(size, nodes, a, KeyChild(n, key));
      var b1 := if kc.Addr? then Search(size, nodes, entries, key, kc.a, n.position, best) else best;
      var dc := Down(size, nodes, a, n.ndc);
      if dc.Addr? then Search(size, nodes, entries, key, dc.a, n.position, b1) else b1
  }

  /** The whole search, from the root with no candidate. */
  ghost function SearchAll<T>(size: nat, root: Ptr, nodes: map<nat, Node>, entries: map<nat, Entry<T>>,
                              key: Bits): Ptr
  {
    if root.Addr? && root.a in nodes then Search(size, nodes, entries, key, root.a, 0, Null) else Null
  }

  /** `r` heads the list of a full node below `a` whose pattern `key` satisfies. */
  ghost predicate HeadOfMatch<T>(size: nat, nodes: map<nat, Node>, entries: map<nat, Entry<T>>,
                                 key: Bits, r: Ptr, a: nat)
  {
    r.Addr? && r.a in entries && entries[r.a].node.Addr? &&
    var f := entries[r.a].node.a;
    f in nodes && Reaches(nodes, f, a) && nodes[f].position == size && nodes[f].entries == r &&
    Matches(key, nodes[f].data, nodes[f].mask)
  }

  /** In a well-shaped trie the search follows every child pointer. */
  lemma DownIsChild(size: nat, root: Ptr, nodes: map<nat, Node>, a: nat, s: Slot)
    requires Shaped(size, root, nodes) && a in nodes
    ensures Down(size, nodes, a, Child(nodes[a], s)) == Child(nodes[a], s)
    ensures Child(nodes[a], s).Addr? ==>
              Child(nodes[a], s).a in nodes &&
              ChildLink(nodes[a], a, nodes[Child(nodes[a], s).a], s) &&
              Reaches(nodes, Child(nodes[a], s).a, a)
  {
    assert NodeOk(size, root, nodes, a);
    assert ChildOk(nodes, a, s);
    if Child(nodes[a], s).Addr? {
      assert NodeOk(size, root, nodes, Child(nodes[a], s).a);
      ChildReaches(size, root, nodes, a, s);
    }
  }

  /** A full node's head entry is live, belongs to it, and has the highest
      priority in its list. */
  lemma HeadOfFull<T>(size: nat, root: Ptr, nodes: map<nat, Node>, lists: map<nat, seq<nat>>,
                      entries: map<nat, Entry<T>>, f: nat)
    requires TreeOk(size, root, nodes) && StoreOk(nodes, lists, entries)
    requires f in nodes && nodes[f].position == size
    ensures nodes[f].entries.Addr? && nodes[f].entries.a in entries && f in lists
    ensures entries[nodes[f].entries.a].node == Addr(f)
    ensures forall i :: 0 <= i < |lists[f]| ==>
              lists[f][i] in entries && entries[lists[f][i]].priority <= PriorityAt(entries, nodes[f].entries)
  {
    assert Occupied(size, nodes[f]);
    assert ListAt(nodes, lists, entries, f);
    var list := lists[f];
    assert LinkOk(entries, f, list, 0);
    var ps := Priorities(entries, list);
    forall i | 0 <= i < |list|
      ensures list[i] in entries && entries[list[i]].priority <= PriorityAt(entries, nodes[f].entries)
    {
      assert ps[0] >= ps[i] || i == 0;
    }
  }

  /** The rule of a live entry hangs on a full node, and no rule of that
      node outranks the node's head entry. */
  lemma RuleBelowHead<T>(size: nat, root: Ptr, nodes: map<nat, Node>, lists: map<nat, seq<nat>>,
                         entries: map<nat, Entry<T>>, x: nat)
    requires TreeOk(size, root, nodes) && StoreOk(nodes, lists, entries) && x in entries
    ensures entries[x].node.Addr? && entries[x].node.a in nodes
    ensures var f := entries[x].node.a;
            nodes[f].position == size &&
            entries[x].priority <= PriorityAt(entries, nodes[f].entries)
  {
    assert Attached(nodes, lists, entries, x);
    var f := entries[x].node.a;
    assert ListAt(nodes, lists, entries, f);
    assert NodeOk(size, root, nodes, f);
    var list := lists[f];
    var i :| 0 <= i < |list| && list[i] == x;
    if nodes[f].position != size {
      assert false;
    }
    HeadOfFull(size, root, nodes, lists, entries, f);
  }

  /** The rules with the pattern of full node `f` are exactly the entries
      of `f`'s list, each with its own priority and object. */
  lemma FullRules<T>(size: nat, root: Ptr, nodes: map<nat, Node>, lists: map<nat, seq<nat>>,
                     entries: map<nat, Entry<T>>, f: nat)
    requires TreeOk(size, root, nodes) && StoreOk(nodes, lists, entries)
    requires f in nodes && nodes[f].position == size
    ensures f in lists
    ensures forall i :: 0 <= i < |lists[f]| ==>
              var y := lists[f][i];
              y in entries && y in Rules(nodes, entries) &&
              Rules(nodes, entries)[y] == Rule(nodes[f].data, nodes[f].mask, entries[y].priority, entries[y].obj)
    ensures forall y :: (y in Rules(nodes, entries) &&
                         Rules(nodes, entries)[y].data == nodes[f].data &&
                         Rules(nodes, entries)[y].mask == nodes[f].mask) ==> y in lists[f]
  {
    assert ListAt(nodes, lists, entries, f);
    var list := lists[f];
    forall i | 0 <= i < |list|
      ensures list[i] in entries && entries[list[i]].node == Addr(f)
    {
      assert LinkOk(entries, f, list, i);
    }
    var rules := Rules(nodes, entries);
    forall y | y in rules && rules[y].data == nodes[f].data && rules[y].mask == nodes[f].mask
      ensures y in list
    {
      RuleBelowHead(size, root, nodes, lists, entries, y);
      var g := entries[y].node.a;
      FullUnique(size, root, nodes, f, g);
      assert Attached(nodes, lists, entries, y);
    }
  }

  /** With no full node carrying a pattern, no rule has that pattern. */
  lemma NoFullNoRule<T>(size: nat, root: Ptr, nodes: map<nat, Node>, lists: map<nat, seq<nat>>,
                        entries: map<nat, Entry<T>>, data: Bits, mask: Bits)
    requires TreeOk(size, root, nodes) && StoreOk(nodes, lists, entries)
    requires forall f :: f in nodes && nodes[f].position == size ==> nodes[f].data != data || nodes[f].mask != mask
    ensures forall y :: y in Rules(nodes, entries) ==>
              Rules(nodes, entries)[y].data != data || Rules(nodes, entries)[y].mask != mask
  {
    forall y | y in Rules(nodes, entries)
      ensures Rules(nodes, entries)[y].data != data || Rules(nodes, entries)[y].mask != mask
    {
      RuleBelowHead(size, root, nodes, lists, entries, y);
    }
  }

  /** No full node below `a` satisfies `key` once bits [prev, position of
      `a`) rule `a` out. */
  lemma NoMatchBelow(size: nat, root: Ptr, nodes: map<nat, Node>, key: Bits, a: nat, prev: nat, f: nat)
    requires Shaped(size, root, nodes) && a in nodes && Reaches(nodes, f, a)
    requires !MatchesOn(key, nodes[a].data, nodes[a].mask, prev, nodes[a].position)
    ensures !Matches(key, nodes[f].data, nodes[f].mask)
  {
    ReachesAgree(size, root, nodes, f, a);
    assert NodeOk(size, root, nodes, f);
  }

  /** The candidate `r` ranks at least as high as the head of every full
      node below `a` whose pattern `key` satisfies. */
  ghost predicate Outranks<T>(size: nat, nodes: map<nat, Node>, entries: map<nat, Entry<T>>,
                              key: Bits, r: Ptr, a: nat)
  {
    forall f :: f in nodes && Reaches(nodes, f, a) && nodes[f].position == size &&
                Matches(key, nodes[f].data, nodes[f].mask) ==>
                  r != Null && PriorityAt(entries, r) >= PriorityAt(entries, nodes[f].entries)
  }

  /** The search of the subtree of `a` returns `best` or the head of a
      full node below `a` that `key` satisfies; it never loses ground on
      `best`; and it outranks every full node below `a` that `key`
      satisfies. */
  lemma {:induction false} SearchSpec<T>(size: nat, root: Ptr, nodes: map<nat, Node>, lists: map<nat, seq<nat>>,
                                         entries: map<nat, Entry<T>>, key: Bits, a: nat, prev: nat, best: Ptr)
    requires TreeOk(size, root, nodes) && StoreOk(nodes, lists, entries) && |key| == size
    requires a in nodes && prev <= nodes[a].position
    requires MatchesOn(key, nodes[a].data, nodes[a].mask, 0, prev)
    ensures var r := Search(size, nodes, entries, key, a, prev, best);
            (r == best || HeadOfMatch(size, nodes, entries, key, r, a)) &&
            (best != Null ==> r != Null && PriorityAt(entries, r) >= PriorityAt(entries, best)) &&
            Outranks(size, nodes, entries, key, r, a)
    decreases if nodes[a].position <= size then size - nodes[a].position else 0, 1
  {
    var n := nodes[a];
    assert NodeOk(size, root, nodes, a);
    var r := Search(size, nodes, entries, key, a, prev, best);
    if !MatchesOn(key, n.data, n.mask, prev, n.position) {
      forall f | f in nodes && Reaches(nodes, f, a)
        ensures !Matches(key, nodes[f].data, nodes[f].mask)
      {
        NoMatchBelow(size, root, nodes, key, a, prev, f);
      }
    } else if n.position == size {
      HeadOfFull(size, root, nodes, lists, entries, a);
      assert Reaches(nodes, a, a);
      forall f | f in nodes && Reaches(nodes, f, a) && nodes[f].position == size &&
                 Matches(key, nodes[f].data, nodes[f].mask)
        ensures r != Null && PriorityAt(entries, r) >= PriorityAt(entries, nodes[f].entries)
      {
        FullLeaf(size, root, nodes, f, a);
      }
    } else {
      SearchInner(size, root, nodes, lists, entries, key, a, prev, best);
    }
  }

  /** `SearchSpec` at a node that is not full and whose bits [prev,
      position) the key satisfies. */
  lemma {:induction false} SearchInner<T>(size: nat, root: Ptr, nodes: map<nat, Node>, lists: map<nat, seq<nat>>,
                                          entries: map<nat, Entry<T>>, key: Bits, a: nat, prev: nat, best: Ptr)
    requires TreeOk(size, root, nodes) && StoreOk(nodes, lists, entries) && |key| == size
    requires a in nodes && prev <= nodes[a].position < size
    requires MatchesOn(key, nodes[a].data, nodes[a].mask, 0, prev)
    requires MatchesOn(key, nodes[a].data, nodes[a].mask, prev, nodes[a].position)
    ensures var r := Search(size, nodes, entries, key, a, prev, best);
            (r == best || HeadOfMatch(size, nodes, entries, key, r, a)) &&
            (best != Null ==> r != Null && PriorityAt(entries, r) >= PriorityAt(entries, best)) &&
            Outranks(size, nodes, entries, key, r, a)
    decreases size - nodes[a].position, 0
  {
    var n := nodes[a];
    assert NodeOk(size, root, nodes, a);
    var r := Search(size, nodes, entries, key, a, prev, best);
    var pos := n.position;
    var ks := if key[pos] then One else Zero;
    assert KeyChild(n, key) == Child(n, ks);
    DownIsChild(size, root, nodes, a, ks);
    DownIsChild(size, root, nodes, a, DontCare);
    var kc := KeyChild(n, key);
    var b1 := if kc.Addr? then Search(size, nodes, entries, key, kc.a, pos, best) else best;
    assert r == if n.ndc.Addr? then Search(size, nodes, entries, key, n.ndc.a, pos, b1) else b1;
    if kc.Addr? {
      MatchesAgree(key, n.data, n.mask, prev, pos, nodes[kc.a].data, nodes[kc.a].mask);
      SearchSpec(size, root, nodes, lists, entries, key, kc.a, pos, best);
      MatchLifts(size, nodes, entries, key, b1, best, kc.a, a);
    }
    if n.ndc.Addr? {
      MatchesAgree(key, n.data, n.mask, prev, pos, nodes[n.ndc.a].data, nodes[n.ndc.a].mask);
      SearchSpec(size, root, nodes, lists, entries, key, n.ndc.a, pos, b1);
      MatchLifts(size, nodes, entries, key, r, b1, n.ndc.a, a);
    }
    InnerOutranks(size, root, nodes, entries, key, a, b1, r);
  }

  /** A candidate found below a child is found below its parent too. */
  lemma MatchLifts<T>(size: nat, nodes: map<nat, Node>, entries: map<nat, Entry<T>>, key: Bits,
                      r: Ptr, best: Ptr, c: nat, a: nat)
    requires Reaches(nodes, c, a)
    requires r == best || HeadOfMatch(size, nodes, entries, key, r, c)
    ensures r == best || HeadOfMatch(size, nodes, entries, key, r, a)
  {
    if r != best {
      ReachesTrans(nodes, entries[r.a].node.a, c, a);
    }
  }


  /** Below a node that is not full, a candidate that outranks the key's
      own subtree and the don't-care subtree outranks the whole subtree. */
  lemma InnerOutranks<T>(size: nat, root: Ptr, nodes: map<nat, Node>, entries: map<nat, Entry<T>>,
                         key: Bits, a: nat, b1: Ptr, r: Ptr)
    requires Shaped(size, root, nodes) && |key| == size && a in nodes && nodes[a].position < size
    requires KeyChild(nodes[a], key).Addr? ==> Outranks(size, nodes, entries, key, b1, KeyChild(nodes[a], key).a)
    requires nodes[a].ndc.Addr? ==> Outranks(size, nodes, entries, key, r, nodes[a].ndc.a)
    requires b1 != Null ==> r != Null && PriorityAt(entries, r) >= PriorityAt(entries, b1)
    ensures Outranks(size, nodes, entries, key, r, a)
  {
    var pos := nodes[a].position;
    var ks := if key[pos] then One else Zero;
    assert KeyChild(nodes[a], key) == Child(nodes[a], ks);
    forall f | f in nodes && Reaches(nodes, f, a) && nodes[f].position == size &&
               Matches(key, nodes[f].data, nodes[f].mask)
      ensures r != Null && PriorityAt(entries, r) >= PriorityAt(entries, nodes[f].entries)
    {
      assert f != a;
      ReachesVia(size, root, nodes, f, a);
      var s := SlotOf(nodes[f].data, nodes[f].mask, pos);
      assert s == DontCare || s == ks;
    }
  }

  /** `find_entry`'s answer, stated over the rules: it is nullptr exactly
      when no rule matches the key; otherwise it is a matching rule and no
      matching rule has a higher priority. */
  lemma FindBest<T>(size: nat, root: Ptr, nodes: map<nat, Node>, lists: map<nat, seq<nat>>,
                    entries: map<nat, Entry<T>>, key: Bits)
    requires TreeOk(size, root, nodes) && StoreOk(nodes, lists, entries) && |key| == size
    ensures var r := SearchAll(size, root, nodes, entries, key);
            var rules := Rules(nodes, entries);
            (r == Null <==> forall x :: x in rules ==> !Matches(key, rules[x].data, rules[x].mask)) &&
            (r.Addr? ==>
               r.a in rules && Matches(key, rules[r.a].data, rules[r.a].mask) &&
               forall x :: x in rules && Matches(key, rules[x].data, rules[x].mask) ==>
                 rules[x].priority <= rules[r.a].priority)
  {
    var r := SearchAll(size, root, nodes, entries, key);
    var rules := Rules(nodes, entries);
    RootIffEmpty(size, root, nodes);
    if root.Addr? {
      SearchSpec(size, root, nodes, lists, entries, key, root.a, 0, Null);
      forall x | x in rules && Matches(key, rules[x].data, rules[x].mask)
        ensures r != Null && PriorityAt(entries, r) >= rules[x].priority
      {
        RuleBelowHead(size, root, nodes, lists, entries, x);
        ReachesRoot(size, root, nodes, entries[x].node.a);
      }
    }
  }

  /** The number of nodes the search may visit below `a`. */
  ghost function Work(size: nat, nodes: map<nat, Node>, a: nat): nat
    requires a in nodes
    decreases if nodes[a].position <= size then size - nodes[a].position else 0
  {
    if nodes[a].position > size then 1
    else
      var c0 := Down(size, nodes, a, nodes[a].n0);
      var c1 := Down(size, nodes, a, nodes[a].n1);
      var cd := Down(size, nodes, a, nodes[a].ndc);
      1 + (if c0.Addr? then Work(size, nodes, c0.a) else 0)
        + (if c1.Addr? then Work(size, nodes, c1.a) else 0)
        + (if cd.Addr? then Work(size, nodes, cd.a) else 0)
  }

  /** The work left in the deferred branches of `find_entry`'s stack. */
  ghost function StackWork(size: nat, nodes: map<nat, Node>, stack: seq<(nat, nat)>): nat
    decreases |stack|
  {
    if stack == [] then 0
    else
      var top := stack[|stack| - 1];
      StackWork(size, nodes, stack[..|stack| - 1]) + (if top.0 in nodes then Work(size, nodes, top.0) else 0)
  }

  /** The candidate `find_entry` ends with when it holds `best` and still
      has the deferred branches of `stack` (node, checked prefix) to
      search, the most recent on top. */
  ghost function Resume<T>(size: nat, nodes: map<nat, Node>, entries: map<nat, Entry<T>>, key: Bits,
                           best: Ptr, stack: seq<(nat, nat)>): Ptr
    decreases |stack|
  {
    if stack == [] then best
    else
      var top := stack[|stack| - 1];
      var b := if top.0 in nodes then Search(size, nodes, entries, key, top.0, top.1, best) else best;
      Resume(size, nodes, entries, key, b, stack[..|stack| - 1])
  }

  /** The prefixes stacked by `find_entry` strictly increase, each lies
      before the position of its node, and each belongs to a node that is
      not full. */
  ghost predicate StackOk(size: nat, nodes: map<nat, Node>, stack: seq<(nat, nat)>)
  {
    (forall i :: 0 <= i < |stack| ==>
       stack[i].0 in nodes && stack[i].1 < nodes[stack[i].0].position && stack[i].1 < size) &&
    (forall i, j :: 0 <= i < j < |stack| ==> stack[i].1 < stack[j].1)
  }

  /** A stack of strictly increasing prefixes all below `m` holds at most `m` of them. */
  lemma {:induction false} StackBound(size: nat, nodes: map<nat, Node>, stack: seq<(nat, nat)>, m: nat)
    requires StackOk(size, nodes, stack)
    requires forall i :: 0 <= i < |stack| ==> stack[i].1 < m
    ensures |stack| <= m
    decreases |stack|
  {
    if stack != [] {
      var last := stack[|stack| - 1].1;
      var rest := stack[..|stack| - 1];
      assert StackOk(size, nodes, rest);
      StackBound(size, nodes, rest, last);
    }
  }

  /** At a node that is not full and whose bits [prev, position) the key
      satisfies, the search goes on into the key's own child and then into
      the don't-care child, both of which lie deeper and carry less work. */
  lemma SearchStep<T>(size: nat, root: Ptr, nodes: map<nat, Node>, entries: map<nat, Entry<T>>, key: Bits,
                      a: nat, prev: nat, best: Ptr)
    requires Shaped(size, root, nodes) && |key| == size && a in nodes && nodes[a].position < size
    requires MatchesOn(key, nodes[a].data, nodes[a].mask, prev, nodes[a].position)
    ensures var n := nodes[a];
            var kc := KeyChild(n, key);
            var dc := n.ndc;
            (kc.Addr? ==> kc.a in nodes && n.position < nodes[kc.a].position) &&
            (dc.Addr? ==> dc.a in nodes && n.position < nodes[dc.a].position) &&
            var b1 := if kc.Addr? then Search(size, nodes, entries, key, kc.a, n.position, best) else best;
            Search(size, nodes, entries, key, a, prev, best) ==
              (if dc.Addr? then Search(size, nodes, entries, key, dc.a, n.position, b1) else b1) &&
            Work(size, nodes, a) >
              (if kc.Addr? then Work(size, nodes, kc.a) else 0) + (if dc.Addr? then Work(size, nodes, dc.a) else 0)
  {
    assert NodeOk(size, root, nodes, a);
    DownIsChild(size, root, nodes, a, Zero);
    DownIsChild(size, root, nodes, a, One);
    DownIsChild(size, root, nodes, a, DontCare);
  }

  /** Deferring the branch (c, p) on top of the stack defers exactly the
      search of that branch, and adds its work to the stack's. */
  lemma ResumePush<T>(size: nat, nodes: map<nat, Node>, entries: map<nat, Entry<T>>, key: Bits,
                      best: Ptr, stack: seq<(nat, nat)>, c: nat, p: nat)
    requires c in nodes
    ensures Resume(size, nodes, entries, key, best, stack + [(c, p)]) ==
            Resume(size, nodes, entries, key, Search(size, nodes, entries, key, c, p, best), stack)
    ensures StackWork(size, nodes, stack + [(c, p)]) == StackWork(size, nodes, stack) + Work(size, nodes, c)
  {
    assert (stack + [(c, p)])[..|stack|] == stack;
  }

  /** Deferring a branch whose prefix exceeds every stacked prefix keeps the
      stack well formed. */
  lemma StackPush(size: nat, nodes: map<nat, Node>, stack: seq<(nat, nat)>, c: nat, p: nat)
    requires StackOk(size, nodes, stack)
    requires c in nodes && p < nodes[c].position && p < size
    requires stack != [] ==> stack[|stack| - 1].1 < p
    ensures StackOk(size, nodes, stack + [(c, p)])
  {
    var s := stack + [(c, p)];
    forall i, j | 0 <= i < j < |s|
      ensures s[i].1 < s[j].1
    {
      if j < |stack| {
        assert s[i] == stack[i] && s[j] == stack[j];
      } else if i < |stack| - 1 {
        assert stack[i].1 < stack[|stack| - 1].1;
      }
    }
  }

  /** Taking the top branch off keeps the stack well formed; the branch lies
      deeper than its prefix, which exceeds every prefix left below it. */
  lemma StackPop(size: nat, nodes: map<nat, Node>, stack: seq<(nat, nat)>)
    requires StackOk(size, nodes, stack) && stack != []
    ensures var top := stack[|stack| - 1];
            var rest := stack[..|stack| - 1];
            StackOk(size, nodes, rest) &&
            top.0 in nodes && top.1 < nodes[top.0].position && top.1 < size &&
            (rest != [] ==> rest[|rest| - 1].1 < top.1)
  {
  }

  /** Every full node's list has a live head entry. */
  ghost predicate HeadsLive<T>(size: nat, nodes: map<nat, Node>, entries: map<nat, Entry<T>>)
  {
    forall a :: a in nodes && nodes[a].position == size ==>
      nodes[a].entries.Addr? && nodes[a].entries.a in entries
  }

  /** A consistent engine state has live heads on its full nodes. */
  lemma HeadsLiveOk<T>(size: nat, root: Ptr, nodes: map<nat, Node>, lists: map<nat, seq<nat>>,
                       entries: map<nat, Entry<T>>)
    requires TreeOk(size, root, nodes) && StoreOk(nodes, lists, entries)
    ensures HeadsLive(size, nodes, entries)
  {
    forall a | a in nodes && nodes[a].position == size
      ensures nodes[a].entries.Addr? && nodes[a].entries.a in entries
    {
      HeadOfFull(size, root, nodes, lists, entries, a);
    }
  }

  /** The candidate of `find_entry` once the node it stands on (if any) is searched. */
  ghost function Current<T>(size: nat, nodes: map<nat, Node>, entries: map<nat, Entry<T>>, key: Bits,
                            node: Ptr, prev: nat, best: Ptr): Ptr
  {
    if node.Addr? && node.a in nodes then Search(size, nodes, entries, key, node.a, prev, best) else best
  }

  /** The work `find_entry` has left: the node it stands on and the deferred branches. */
  ghost function Left(size: nat, nodes: map<nat, Node>, node: Ptr, stack: seq<(nat, nat)>): nat
  {
    (if node.Addr? && node.a in nodes then Work(size, nodes, node.a) else 0) + StackWork(size, nodes, stack)
  }

  /** The loop invariant of `find_entry` at node `node` (nullptr when the
      branch is finished), with bits [0, prev) checked, candidate `best` and
      deferred branches `stack`: the stack is well formed, the candidate is
      live, the current node lies deeper than every stacked prefix, and
      finishing from here yields what the recursive search from the root
      yields. */
  ghost predicate Inv<T>(size: nat, root: Ptr, nodes: map<nat, Node>, entries: map<nat, Entry<T>>, key: Bits,
                         node: Ptr, prev: nat, best: Ptr, stack: seq<(nat, nat)>)
  {
    StackOk(size, nodes, stack) &&
    (best.Addr? ==> best.a in entries) &&
    (node.Addr? ==> node.a in nodes && prev <= nodes[node.a].position) &&
    (node.Addr? && stack != [] ==> stack[|stack| - 1].1 <= prev < nodes[node.a].position) &&
    Resume(size, nodes, entries, key, Current(size, nodes, entries, key, node, prev, best), stack)
      == SearchAll(size, root, nodes, entries, key)
  }

  /** The search starts at the root with no candidate and an empty stack. */
  lemma InvStart<T>(size: nat, root: Ptr, nodes: map<nat, Node>, entries: map<nat, Entry<T>>, key: Bits)
    requires Shaped(size, root, nodes)
    ensures Inv(size, root, nodes, entries, key, root, 0, Null, [])
  {
  }

  /** With nothing left to search, the candidate is the answer. */
  lemma InvEnd<T>(size: nat, root: Ptr, nodes: map<nat, Node>, entries: map<nat, Entry<T>>, key: Bits,
                  prev: nat, best: Ptr)
    requires Inv(size, root, nodes, entries, key, Null, prev, best, [])
    ensures best == SearchAll(size, root, nodes, entries, key)
  {
  }

  /** Resuming the most recently deferred branch moves its work from the
      stack to the current node. */
  lemma InvPop<T>(size: nat, root: Ptr, nodes: map<nat, Node>, entries: map<nat, Entry<T>>, key: Bits,
                  prev: nat, best: Ptr, stack: seq<(nat, nat)>)
    requires Inv(size, root, nodes, entries, key, Null, prev, best, stack) && stack != []
    ensures var top := stack[|stack| - 1];
            var rest := stack[..|stack| - 1];
            Inv(size, root, nodes, entries, key, Addr(top.0), top.1, best, rest) &&
            Left(size, nodes, Addr(top.0), rest) == Left(size, nodes, Null, stack)
  {
    StackPop(size, nodes, stack);
  }

  /** A node whose bits [prev, position) the key violates ends its branch. */
  lemma InvMismatch<T>(size: nat, root: Ptr, nodes: map<nat, Node>, entries: map<nat, Entry<T>>, key: Bits,
                       a: nat, prev: nat, best: Ptr, stack: seq<(nat, nat)>)
    requires Shaped(size, root, nodes) && |key| == size
    requires Inv(size, root, nodes, entries, key, Addr(a), prev, best, stack)
    requires !MatchesOn(key, nodes[a].data, nodes[a].mask, prev, nodes[a].position)
    ensures Inv(size, root, nodes, entries, key, Null, prev, best, stack)
    ensures Left(size, nodes, Null, stack) < Left(size, nodes, Addr(a), stack)
  {
    assert NodeOk(size, root, nodes, a);
  }

  /** A matching full node offers its head entry and ends its branch. */
  lemma InvFull<T>(size: nat, root: Ptr, nodes: map<nat, Node>, entries: map<nat, Entry<T>>, key: Bits,
                   a: nat, prev: nat, best: Ptr, stack: seq<(nat, nat)>)
    requires Shaped(size, root, nodes) && HeadsLive(size, nodes, entries) && |key| == size
    requires Inv(size, root, nodes, entries, key, Addr(a), prev, best, stack)
    requires nodes[a].position == size && MatchesOn(key, nodes[a].data, nodes[a].mask, prev, size)
    ensures Inv(size, root, nodes, entries, key, Null, size, Better(entries, best, nodes[a].entries), stack)
    ensures Left(size, nodes, Null, stack) < Left(size, nodes, Addr(a), stack)
  {
    assert NodeOk(size, root, nodes, a);
  }

  /** A matching inner node with only one branch to follow moves on to it. */
  lemma InvDescend<T>(size: nat, root: Ptr, nodes: map<nat, Node>, entries: map<nat, Entry<T>>, key: Bits,
                      a: nat, prev: nat, best: Ptr, stack: seq<(nat, nat)>, next: Ptr)
    requires Shaped(size, root, nodes) && |key| == size
    requires Inv(size, root, nodes, entries, key, Addr(a), prev, best, stack)
    requires nodes[a].position < size && MatchesOn(key, nodes[a].data, nodes[a].mask, prev, nodes[a].position)
    requires KeyChild(nodes[a], key).Null? || nodes[a].ndc.Null?
    requires next == (if KeyChild(nodes[a], key).Addr? then KeyChild(nodes[a], key) else nodes[a].ndc)
    ensures Inv(size, root, nodes, entries, key, next, nodes[a].position, best, stack)
    ensures Left(size, nodes, next, stack) < Left(size, nodes, Addr(a), stack)
  {
    SearchStep(size, root, nodes, entries, key, a, prev, best);
  }

  /** A matching inner node with both branches follows the key's own child
      and defers the don't-care child, which the stack has room for. */
  lemma InvPush<T>(size: nat, root: Ptr, nodes: map<nat, Node>, entries: map<nat, Entry<T>>, key: Bits,
                   a: nat, prev: nat, best: Ptr, stack: seq<(nat, nat)>)
    requires Shaped(size, root, nodes) && |key| == size
    requires Inv(size, root, nodes, entries, key, Addr(a), prev, best, stack)
    requires nodes[a].position < size && MatchesOn(key, nodes[a].data, nodes[a].mask, prev, nodes[a].position)
    requires KeyChild(nodes[a], key).Addr? && nodes[a].ndc.Addr?
    ensures var pos := nodes[a].position;
            var stack' := stack + [(nodes[a].ndc.a, pos)];
            |stack| < size &&
            Inv(size, root, nodes, entries, key, KeyChild(nodes[a], key), pos, best, stack') &&
            Left(size, nodes, KeyChild(nodes[a], key), stack') < Left(size, nodes, Addr(a), stack)
  {
    var pos := nodes[a].position;
    var kc := KeyChild(nodes[a], key);
    var dc := nodes[a].ndc;
    var stack' := stack + [(dc.a, pos)];
    SearchStep(size, root, nodes, entries, key, a, prev, best);
    var b1 := Search(size, nodes, entries, key, kc.a, pos, best);
    assert Current(size, nodes, entries, key, Addr(a), prev, best) == Search(size, nodes, entries, key, dc.a, pos, b1);
    assert Current(size, nodes, entries, key, kc, pos, best) == b1;
    StackBound(size, nodes, stack, pos);
    StackPush(size, nodes, stack, dc.a, pos);
    ResumePush(size, nodes, entries, key, b1, stack, dc.a, pos);
    assert Resume(size, nodes, entries, key, b1, stack') == SearchAll(size, root, nodes, entries, key);
  }
}
