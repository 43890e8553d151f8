/** `soft_tcam_entry`: one prioritised match attached to a full trie node.
    Every live entry is a record in an `EntryStore`, which stands for the
    heap of `soft_tcam_entry` objects together with the class's static
    allocation counter; a pointer to an entry is its address there. */
module TcamEntry {
  import opened Common

  /** The fields of one entry. Its access counter is kept in the store's
      `AccessCounters`, so that counting a read leaves the record alone. */
  datatype Entry<T> = Entry(priority: U32, obj: T, next: Ptr, node: Ptr)

  class EntryStore<T(==,0)> {
    /** The live entries, by address. */
    var entries: map<nat, Entry<T>>
    /** `m_access_counter` of each entry. */
    const counters: AccessCounters
    /** `s_alloc_counter`: bumped by `operator new`, dropped by `operator delete`. */
    var allocCounter: nat
    /** Every address handed out so far is below this one. */
    var nextAddr: nat

    /** The allocation counter counts exactly the live entries, and no live
        entry sits at an address that could be handed out again. */
    ghost predicate Valid()
      reads this
    {
      allocCounter == |entries.Keys| &&
      forall x :: x in entries ==> x < nextAddr
    }

    /** An empty heap: no entry has been allocated yet. */
    constructor ()
      ensures Valid()
      ensures entries == map[] && allocCounter == 0
      ensures fresh(counters)
    {
      entries := map[];
      counters := new AccessCounters();
      allocCounter := 0;
      nextAddr := 0;
    }

    /** `new soft_tcam_entry()`: allocates a fresh entry with priority 0, no
        next entry, no node and a zero access counter, and counts it. */
    method New() returns (x: nat)
      requires Valid()
      modifies this, counters
      ensures Valid()
      ensures x !in old(entries)
      ensures x in entries && entries == old(entries)[x := Entry(0, entries[x].obj, Null, Null)]
      ensures counters.count == old(counters.count)[x := 0]
      ensures allocCounter == old(allocCounter) + 1
    {
      var obj: T := *;
      x := nextAddr;
      nextAddr := nextAddr + 1;
      KeysAdd(entries, x, Entry(0, obj, Null, Null));
      entries := entries[x := Entry(0, obj, Null, Null)];
      counters.Reset(x);
      allocCounter := allocCounter + 1;
    }

    /** `delete entry`: releases the entry and uncounts it. */
    method Delete(x: nat)
      requires Valid() && x in entries
      modifies this, counters
      ensures Valid()
      ensures entries == old(entries) - {x} && counters.count == old(counters.count) - {x}
      ensures allocCounter == old(allocCounter) - 1
    {
      KeysRemove(entries, x);
      entries := entries - {x};
      counters.Drop(x);
      allocCounter := allocCounter - 1;
    }

    /** `set_priority`: changes the priority and nothing else. */
    method SetPriority(x: nat, priority: U32)
      requires Valid() && x in entries
      modifies this
      ensures Valid()
      ensures entries == old(entries)[x := old(entries)[x].(priority := priority)]
      ensures allocCounter == old(allocCounter)
    {
      entries := entries[x := entries[x].(priority := priority)];
    }

    /** `get_priority`: the stored priority; counts one access and changes
        nothing else. */
    method GetPriority(x: nat) returns (priority: U32)
      requires x in entries
      modifies counters
      ensures unchanged(this)
      ensures priority == entries[x].priority
      ensures counters.count == old(counters.count)[x := Inc(old(counters.Of(x)))]
    {
      counters.Bump(x);
      priority := entries[x].priority;
    }

    /** `set_object`: changes the associated object and nothing else. */
    method SetObject(x: nat, obj: T)
      requires Valid() && x in entries
      modifies this
      ensures Valid()
      ensures entries == old(entries)[x := old(entries)[x].(obj := obj)]
      ensures allocCounter == old(allocCounter)
    {
      entries := entries[x := entries[x].(obj := obj)];
    }

    /** `get_object`: the stored object; counts one access. */
    method GetObject(x: nat) returns (obj: T)
      requires x in entries
      modifies counters
      ensures unchanged(this)
      ensures obj == entries[x].obj
      ensures counters.count == old(counters.count)[x := Inc(old(counters.Of(x)))]
    {
      counters.Bump(x);
      obj := entries[x].obj;
    }

    /** `set_next`: relinks the entry and changes nothing else. */
    method SetNext(x: nat, next: Ptr)
      requires Valid() && x in entries
      modifies this
      ensures Valid()
      ensures entries == old(entries)[x := old(entries)[x].(next := next)]
      ensures allocCounter == old(allocCounter)
    {
      entries := entries[x := entries[x].(next := next)];
    }

    /** `get_next`: the stored next pointer; counts one access. */
    method GetNext(x: nat) returns (next: Ptr)
      requires x in entries
      modifies counters
      ensures unchanged(this)
      ensures next == entries[x].next
      ensures counters.count == old(counters.count)[x := Inc(old(counters.Of(x)))]
    {
      counters.Bump(x);
      next := entries[x].next;
    }

    /** `set_node`: changes the back-reference to the owning node only. */
    method SetNode(x: nat, node: Ptr)
      requires Valid() && x in entries
      modifies this
      ensures Valid()
      ensures entries == old(entries)[x := old(entries)[x].(node := node)]
      ensures allocCounter == old(allocCounter)
    {
      entries := entries[x := entries[x].(node := node)];
    }

    /** `get_node`: the stored back-reference; counts one access. */
    method GetNode(x: nat) returns (node: Ptr)
      requires x in entries
      modifies counters
      ensures unchanged(this)
      ensures node == entries[x].node
      ensures counters.count == old(counters.count)[x := Inc(old(counters.Of(x)))]
    {
      counters.Bump(x);
      node := entries[x].node;
    }

    /** `get_alloc_counter`: the number of live entries. */
    method GetAllocCounter() returns (n: nat)
      requires Valid()
      ensures n == |entries.Keys|
    {
      n := allocCounter;
    }
  }

  /** The priority of the entry at `p`, or 0 when `p` is not a live entry. */
  function PriorityAt<T>(entries: map<nat, Entry<T>>, p: Ptr): U32
  {
    if p.Addr? && p.a in entries then entries[p.a].priority else 0
  }

  /** The priorities of a list of entries, in list order. */
  function Priorities<T>(entries: map<nat, Entry<T>>, list: seq<nat>): (ps: seq<U32>)
    requires forall i :: 0 <= i < |list| ==> list[i] in entries
    ensures |ps| == |list|
    ensures forall i :: 0 <= i < |list| ==> ps[i] == entries[list[i]].priority
  {
    seq(|list|, i requires 0 <= i < |list| => entries[list[i]].priority)
  }
}
