# soft_tcam in Dafny

`soft_tcam<T, size>` is a software ternary CAM (TCAM, a table that matches
keys against patterns with wildcard bits). It stores rules made of a
`size`-bit pattern given as a (data, mask) pair, a 32-bit priority and an
object. `find(key)` returns the object of a matching rule with the highest
priority. A mask bit of 1 means the key bit must equal the data bit. A mask
bit of 0 is a wildcard, and its data bit must be 0.

Rules live in a path-compressed ternary trie of `soft_tcam_node`s:

- Each node carries a pattern, a `position` (how many leading bits it
  fixes) and three child slots: `n0`, `n1` and `ndc` (don't care).
- The child in a slot agrees with its parent on bits `[0, position)`. Bit
  `position` of the child's pattern selects the slot.
- A node with `position == size` is a full node. Only full nodes carry
  entries.
- A full node keeps its `soft_tcam_entry`s in a singly linked list sorted
  by priority, highest first. An entry of equal priority goes after the
  ones already there.
- Nodes and entries count how often their getters are read (access
  counters). Each class counts its live instances (allocation counters).

This project models that core as imperative Dafny:

- **`NodeStore` and `EntryStore`** (modules `TcamNode`, `TcamEntry`) are
  the two heaps.
  - Each holds a map from address to node or entry, plus the allocation
    counter, which always equals the number of live objects.
  - Each has an `AccessCounters` object that its getters bump.
  - A ghost map `lists` records, for each node, its entry list as a
    sequence. `ListOk` ties that sequence to the head pointer and the
    `next` links.
- **`SoftTcam`** (module `Tcam`) holds `root` and both heaps.
  - Its invariant `Valid` combines `TreeOk` (module `Trie`: every node is
    well linked to its parent and children, and every node is a full node
    or has a child) with `StoreOk` (module `TcamRules`: every list is well
    formed and every live entry hangs on a live node that lists it).
  - The engine is specified through `Rules()`: one `Rule(data, mask,
    priority, obj)` per live entry, keyed by the entry's address.
  - `Insert` adds exactly one rule. `Erase` removes exactly one matching
    rule. `Find` returns the object of a top-priority matching rule, or
    nothing when no rule matches.
- **`Search`** (module `TcamSearch`) is the recursive search that
  `find_entry`'s stack-based loop performs. `FindEntry` is proved equal to
  it, and `FindBest` proves what it finds is the best matching rule.

Bits are indexed as `std::bitset` indexes them: index 0 first. Equal
priorities are ordered as the code orders them: `insert_entry` places a new
entry after every entry of equal priority, and `find_entry` replaces its
candidate only on a strictly higher priority.

## Model

| member | source | states |
|---|---|---|
| Common.Inc | soft_tcam/soft_tcam_node.cc:49 | an access counter steps by one and wraps to 0 after the largest 64-bit value |
| Common.AccessCounters.Bump | soft_tcam/soft_tcam_node.cc:45-51 | a getter read raises that object's counter by one (with wrap-around) and no other counter |
| TcamEntry.EntryStore.constructor | soft_tcam/soft_tcam_entry.cc:107-108 | the entry heap starts empty with an allocation counter of 0 |
| TcamEntry.EntryStore.New | soft_tcam/soft_tcam_entry.cc:10-30 | a fresh address gets an entry with priority 0, no next and no node, access counter 0; the allocation counter grows by one and equals the live count |
| TcamEntry.EntryStore.Delete | soft_tcam/soft_tcam_entry.cc:32-38 | the entry and its counter leave the heap and the allocation counter drops by one |
| TcamEntry.EntryStore.SetPriority | soft_tcam/soft_tcam_entry.cc:40-45 | only that entry's priority changes |
| TcamEntry.EntryStore.GetPriority | soft_tcam/soft_tcam_entry.cc:47-53 | returns the priority, bumps only that entry's access counter, changes nothing else |
| TcamEntry.EntryStore.SetObject | soft_tcam/soft_tcam_entry.cc:55-60 | only that entry's object changes |
| TcamEntry.EntryStore.GetObject | soft_tcam/soft_tcam_entry.cc:62-68 | returns the object and bumps only that entry's counter |
| TcamEntry.EntryStore.SetNext | soft_tcam/soft_tcam_entry.cc:70-75 | only that entry's next link changes |
| TcamEntry.EntryStore.GetNext | soft_tcam/soft_tcam_entry.cc:77-83 | returns the next link and bumps only that entry's counter |
| TcamEntry.EntryStore.SetNode | soft_tcam/soft_tcam_entry.cc:85-90 | only that entry's node link changes |
| TcamEntry.EntryStore.GetNode | soft_tcam/soft_tcam_entry.cc:92-98 | returns the node link and bumps only that entry's counter |
| TcamEntry.EntryStore.GetAllocCounter | soft_tcam/soft_tcam_entry.cc:100-105 | the allocation counter equals the number of live entries |
| TcamNode.NodeStore.constructor | soft_tcam/soft_tcam_node.cc:214 | the node heap starts empty with an allocation counter of 0 |
| TcamNode.NodeStore.New | soft_tcam/soft_tcam_node.cc:10-35 | a fresh address gets a node with the given pattern and position, no links, no entries and an empty list; the allocation counter grows by one |
| TcamNode.NodeStore.Delete | soft_tcam/soft_tcam_node.cc:37-43 | the node, its list and its counter leave the heap and the allocation counter drops by one |
| TcamNode.NodeStore.GetData | soft_tcam/soft_tcam_node.cc:45-51 | returns the pattern data and bumps only that node's counter |
| TcamNode.NodeStore.GetMask | soft_tcam/soft_tcam_node.cc:53-59 | returns the mask and bumps only that node's counter |
| TcamNode.NodeStore.GetPosition | soft_tcam/soft_tcam_node.cc:61-67 | returns the position and bumps only that node's counter |
| TcamNode.NodeStore.SetN0 | soft_tcam/soft_tcam_node.cc:69-74 | only that node's n0 link changes |
| TcamNode.NodeStore.GetN0 | soft_tcam/soft_tcam_node.cc:76-82 | returns n0 and bumps only that node's counter |
| TcamNode.NodeStore.SetN1 | soft_tcam/soft_tcam_node.cc:84-89 | only that node's n1 link changes |
| TcamNode.NodeStore.GetN1 | soft_tcam/soft_tcam_node.cc:91-97 | returns n1 and bumps only that node's counter |
| TcamNode.NodeStore.SetNdc | soft_tcam/soft_tcam_node.cc:99-104 | only that node's ndc link changes |
| TcamNode.NodeStore.GetNdc | soft_tcam/soft_tcam_node.cc:106-112 | returns ndc and bumps only that node's counter |
| TcamNode.NodeStore.SetParent | soft_tcam/soft_tcam_node.cc:114-119 | only that node's parent link changes |
| TcamNode.NodeStore.GetParent | soft_tcam/soft_tcam_node.cc:121-127 | returns the parent and bumps only that node's counter |
| TcamNode.NodeStore.GetEntryHead | soft_tcam/soft_tcam_node.cc:129-135 | returns the list head and bumps only that node's counter |
| TcamNode.NodeStore.GetAllocCounter | soft_tcam/soft_tcam_node.cc:206-211 | the allocation counter equals the number of live nodes |
| TcamNode.NodeStore.InsertEntry | soft_tcam/soft_tcam_node.cc:137-169 | -1 exactly for nullptr, changing nothing, access counters included; otherwise the entry points to the node and is spliced in after every entry of priority >= its own, keeping the list sorted and well linked, and only the counters of the old list's entries and the new entry may change |
| TcamNode.NodeStore.Link | soft_tcam/soft_tcam_node.cc:149-166 | the node's list becomes the old list with the entry at its splice point, and the head and next links spell the new list; only the counters of the old list's entries and the new entry may change |
| TcamNode.NodeStore.ScanSplicePoint | soft_tcam/soft_tcam_node.cc:156-164 | the walk stops at the last entry whose priority is >= the new one, the predecessor of the splice point; only the counters of the list's entries and the new entry may change |
| TcamNode.NodeStore.EraseEntry | soft_tcam/soft_tcam_node.cc:171-204 | 0 exactly when the entry is in the node's list: it is unlinked and freed, the rest keep their order and links; otherwise -1 with nothing changed; either way only the counters of the list's entries may change |
| TcamNode.NodeStore.UnlinkAfter | soft_tcam/soft_tcam_node.cc:189-198 | unlinking a non-head entry removes just that list position and frees it, and its counter goes with it while every other counter stays |
| TcamNode.NodeStore.Unlink | soft_tcam/soft_tcam_node.cc:183-185 | the unlinked entry is cleared and freed, leaving the heap together with its counter; every other counter stays |
| TcamNode.NodeStore.SetHead | soft_tcam/soft_tcam_node.cc:151-152 | only the node's head pointer (and its ghost list) changes |
| TcamNode.ListOkSpliced | soft_tcam/soft_tcam_node.cc:149-166 | splicing an entry at the priority splice point keeps the list well linked from the new head |
| TcamNode.PrioritiesSpliced | soft_tcam/soft_tcam_node.cc:165-166 | after the splice the priorities read along the list are the old ones with the new priority inserted at the splice point |
| TcamNode.ListOkRemoved | soft_tcam/soft_tcam_node.cc:181-198 | removing the k-th entry keeps the list well linked from the new head |
| TcamNode.PrioritiesRemoved | soft_tcam/soft_tcam_node.cc:181-198 | after the removal the priorities read along the list are the old ones without position k |
| TcamNode.SpliceInserted | soft_tcam/soft_tcam_node.cc:147-166 | the splice performed by insert_entry is exactly the Inserted relation between old and new heaps |
| TcamNode.RemoveErased | soft_tcam/soft_tcam_node.cc:181-198 | the unlink performed by erase_entry is exactly the Erased relation, and a non-head removal leaves the nodes as they were |
| EntryList.ScanFromStops | soft_tcam/soft_tcam_node.cc:158-164 | the list walk passes only priorities >= p and stops at the first one below p |
| EntryList.SplicePointSplits | soft_tcam/soft_tcam_node.cc:149-164 | in a descending list every entry before the splice point has priority >= p and every entry after it < p |
| EntryList.SplicePointHead | soft_tcam/soft_tcam_node.cc:149-150 | the new entry goes to the head exactly when the list is empty or it outranks the head |
| EntryList.SpliceSorted | soft_tcam/soft_tcam_node.cc:149-166 | splicing at the splice point keeps the list sorted descending |
| EntryList.SpliceContents | soft_tcam/soft_tcam_node.cc:165-166 | a splice adds exactly the new element, and removing it gives back the old list |
| EntryList.RemoveSorted | soft_tcam/soft_tcam_node.cc:181-198 | removing any entry keeps a descending list descending |
| EntryList.RemoveAtContents | soft_tcam/soft_tcam_node.cc:181-198 | a removal takes out exactly the removed element |
| EntryList.SpliceDistinct | soft_tcam/soft_tcam_node.cc:165-166 | splicing in a new entry keeps the list free of repeats |
| EntryList.RemoveDistinct | soft_tcam/soft_tcam_node.cc:193-196 | after the removal the entry no longer occurs in the list |
| Trie.ReachesRoot | soft_tcam/soft_tcam.cc:321-330 | following parent links from any node ends at the root |
| Trie.ReachesAgree | soft_tcam/soft_tcam.cc:382-387 | every descendant agrees with its ancestor on the ancestor's fixed bits and has a larger position |
| Trie.FullLeaf | soft_tcam/soft_tcam.cc:388-390 | a full node has no descendants |
| Trie.FullUnique | soft_tcam/soft_tcam.cc:111-115 | at most one full node carries a given pattern |
| Trie.RootIffEmpty | soft_tcam/soft_tcam.cc:94-100 | the root is nullptr exactly when the trie has no nodes |
| TrieEdit.AttachOk | soft_tcam/soft_tcam.cc:121-142 | hanging a new leaf in an empty slot of the nearest node keeps the trie invariant |
| TrieEdit.BetweenOk | soft_tcam/soft_tcam.cc:247-304 | inserting the branch node between less and more, with more and the new leaf as its children, keeps the trie invariant (the branch node becomes the root when less is nullptr) |
| TrieEdit.BetweenReady | soft_tcam/soft_tcam.cc:260-268 | the common prefix of more and the new leaf lies strictly between the positions of less and more, so insert_between's preconditions hold |
| TrieEdit.DetachOk | soft_tcam/soft_tcam.cc:332-359 | removing a childless, entry-free node from its parent keeps the trie invariant, except that the parent may be left unoccupied |
| TrieEdit.HeadChanged | soft_tcam/soft_tcam.cc:168-181 | changing a full node's list head keeps the trie invariant, except that a node left without entries is unoccupied |
| TrieEdit.InUse | soft_tcam/soft_tcam.cc:313-319 | a node that still has a child or an entry is occupied, so refusing to erase it leaves a valid trie |
| TrieEdit.LastNode | soft_tcam/soft_tcam.cc:321-330 | a root without children is the only node left |
| TrieEdit.OnlySlot | soft_tcam/soft_tcam.cc:333-353 | a node sits in exactly one slot of its parent |
| TrieEdit.ClearedSlot | soft_tcam/soft_tcam.cc:332-353 | the slot scan, which clears every parent slot holding the node, clears exactly the one slot the node's pattern selects |
| TrieEdit.PrunedDetached | soft_tcam/soft_tcam.cc:332-363 | below a parent, erasing the node is detaching it and then erasing the parent exactly when the parent is left without children |
| TrieEdit.PrunedKept | soft_tcam/soft_tcam.cc:306-366 | erase_node adds no node and changes no surviving node's pattern, position, parent or entry list, and a childless entry-free node is gone afterwards |
| TrieEdit.BetweenLinks | soft_tcam/soft_tcam.cc:270-301 | after insert_between the branching node has the prefix pattern, position d, parent less and no entries; it holds more and the leaf in two different slots and nothing in the third, both point back at it, less holds it in the slot that held more, and every other node is unchanged |
| TrieEdit.BetweenMadeByLinks | soft_tcam/soft_tcam.cc:270-301 | the three hangings after allocating the branching node produce exactly the node map and root insert_between is specified to leave |
| TrieEdit.BranchPoint | soft_tcam/soft_tcam.cc:121-144 | the child met on the pattern's path is deeper than its parent and agrees with the pattern one bit further |
| TcamRules.RulesFrame | soft_tcam/soft_tcam.cc:272-301 | relinking nodes without changing any pattern or entry leaves the rules unchanged |
| RuleEdit.InsertedStore | soft_tcam/soft_tcam.cc:111-114 | adding a detached entry to a full node's list keeps the store invariant and adds exactly that entry's rule |
| RuleEdit.LeafInserted | soft_tcam/soft_tcam.cc:117-119 | adding the entry to a fresh leaf yields exactly the rule (data, mask, priority, object) |
| RuleEdit.ErasedStore | soft_tcam/soft_tcam.cc:163-172 | erasing an entry from its list keeps the store invariant and removes exactly that entry's rule |
| RuleEdit.RelinkedStore | soft_tcam/soft_tcam.cc:272-301 | relinking trie nodes keeps every list and attachment, and the rules |
| RuleEdit.BetweenStore | soft_tcam/soft_tcam.cc:270-301 | insert_between's relinking gives a valid trie and store with the same rules |
| RuleEdit.DetachStore | soft_tcam/soft_tcam.cc:332-359 | detaching a node keeps the store invariant and the rules |
| RuleEdit.LastStore | soft_tcam/soft_tcam.cc:321-329 | freeing a node without entries keeps the store invariant and the rules |
| RuleEdit.UnattachedRules | soft_tcam/soft_tcam.cc:90-92 | a fresh entry on no node adds no rule |
| TcamSearch.SearchSpec | soft_tcam/soft_tcam.cc:420-461 | the recursive search returns either its incoming best or the head of a matching full node below, never drops below the incoming priority, and is outranked by no matching head below |
| TcamSearch.FindBest | soft_tcam/soft_tcam.cc:408-471 | the search from the root yields nullptr exactly when no rule matches the key, and otherwise a matching rule with maximal priority |
| TcamSearch.HeadOfFull | soft_tcam/soft_tcam.cc:436-440 | a full node's head exists and has the highest priority in its list |
| TcamSearch.FullRules | soft_tcam/soft_tcam.cc:163-172 | a full node's list holds exactly the rules with its pattern |
| TcamSearch.NoFullNoRule | soft_tcam/soft_tcam.cc:156-161 | without a full node carrying a pattern, no rule has that pattern |
| TcamSearch.NoMatchBelow | soft_tcam/soft_tcam.cc:426-434 | a key that fails a node's fixed bits matches no full node below it, so abandoning the branch loses nothing |
| TcamSearch.StackBound | soft_tcam/soft_tcam.cc:414-415 | deferred branches have strictly increasing positions below size, so the stack never holds more than size of them |
| TcamSearch.InvPush | soft_tcam/soft_tcam.cc:449-454 | deferring the don't-care child keeps the loop invariant, fits in the size-long arrays and decreases the remaining work |
| TcamSearch.InvPop | soft_tcam/soft_tcam.cc:462-467 | resuming from the stack top keeps the loop invariant |
| TcamSearch.InvFull | soft_tcam/soft_tcam.cc:435-441 | a matching full node replaces the candidate only on a strictly higher priority, keeping the invariant |
| TcamSearch.InvDescend | soft_tcam/soft_tcam.cc:442-460 | descending into the single available child keeps the invariant and decreases the work |
| TcamSearch.InvMismatch | soft_tcam/soft_tcam.cc:426-434 | abandoning a mismatching node keeps the invariant |
| TcamSearch.InvEnd | soft_tcam/soft_tcam.cc:462-470 | with no node and an empty stack the candidate is the full search's result |
| TcamNearest.NearestMismatch | soft_tcam/soft_tcam.cc:382-386 | a mismatch inside a node's fixed bits makes its parent the nearest node |
| TcamNearest.NearestFull | soft_tcam/soft_tcam.cc:388-390 | reaching a full node that agrees on all bits returns the node carrying exactly the pattern |
| TcamNearest.NearestStep | soft_tcam/soft_tcam.cc:391-402 | the child picked by the pattern's bit is deeper and agrees further; an empty slot makes the current node the answer |
| Teardown.WholeTree | soft_tcam/soft_tcam.cc:35-38 | in a valid engine the subtree of the root is every node, and its lists hold every entry |
| Teardown.SubSplit | soft_tcam/soft_tcam.cc:230-238 | a node's subtree is itself plus the disjoint subtrees of its three children |
| Teardown.DropStep | soft_tcam/soft_tcam.cc:223-228 | each head erasure of destroy_node's loop removes the next list entry and advances the head |
| Teardown.DropDone | soft_tcam/soft_tcam.cc:224 | when the head is nullptr every entry of the list has been erased |
| Tcam.CheckPattern | soft_tcam/soft_tcam.cc:83-88 | accepts exactly the patterns with no bit of mask 0 and data 1 |
| Tcam.MatchesRange | soft_tcam/soft_tcam.cc:426-431 | true exactly when the key meets the pattern on every masked bit of [prev, curr) |
| Tcam.AgreesRange | soft_tcam/soft_tcam.cc:382-387 | true exactly when both patterns are identical on [position, node position) |
| Tcam.CommonPrefix | soft_tcam/soft_tcam.cc:256-268 | the branch pattern copies the new node's bits up to the first bit where it differs from more, is zero beyond, and that index is returned |
| Tcam.SoftTcam.constructor | soft_tcam/soft_tcam.cc:22-29 | a new engine has no root, no nodes, no entries and no rules |
| Tcam.SoftTcam.Dispose | soft_tcam/soft_tcam.cc:31-39 | the destructor frees every node and entry: both heaps empty, both allocation counters 0, no rules |
| Tcam.SoftTcam.FindNearestNode | soft_tcam/soft_tcam.cc:368-406 | nullptr when the trie is empty or the root disagrees with the pattern; otherwise a node that agrees on its fixed bits and is full with this exact pattern or has an empty or disagreeing child in the pattern's slot; the full node carrying the pattern, if any, is returned |
| Tcam.SoftTcam.FindEntry | soft_tcam/soft_tcam.cc:408-471 | the stack loop returns exactly what the recursive search from the root returns |
| Tcam.SoftTcam.Find | soft_tcam/soft_tcam.cc:186-199 | nothing exactly when no rule matches the key; otherwise the object of a matching rule that no matching rule outranks |
| Tcam.SoftTcam.NewEntry | soft_tcam/soft_tcam.cc:90-92 | a fresh entry with the priority and the object, on no node, and the rules unchanged |
| Tcam.SoftTcam.NewLeaf | soft_tcam/soft_tcam.cc:117-119 | a fresh full node with the pattern carrying the entry, adding exactly its rule |
| Tcam.SoftTcam.AddToFull | soft_tcam/soft_tcam.cc:111-115 | an entry for an existing pattern joins that node's list, adding exactly its rule and no node |
| Tcam.SoftTcam.SetSlot | soft_tcam/soft_tcam.cc:285-291 | the node's slot for the pattern at bit i (ndc for mask 0, else n0 or n1 by the data bit) takes the pointer, and nothing else changes |
| Tcam.SoftTcam.Hang | soft_tcam/soft_tcam.cc:285-292 | the parent holds the child in the slot the child's pattern selects at the parent's position, the child points back at the parent, and nothing else changes |
| Tcam.SoftTcam.AttachLeaf | soft_tcam/soft_tcam.cc:121-142 | the leaf hangs in the nearest node's empty slot for its pattern with that node as its parent, nothing else changes, the engine stays valid and the rules unchanged |
| Tcam.SoftTcam.PlaceLeaf | soft_tcam/soft_tcam.cc:121-144 | below a non-full nearest node the leaf is hung directly (Hung) when its slot is empty; otherwise insert_between(nearest, temp, leaf) leaves exactly the node map and root BetweenMade describes, with a fresh branching node between the nearest node and the child temp found in that slot; 0, a valid engine and unchanged rules either way |
| Tcam.SoftTcam.InsertBetween | soft_tcam/soft_tcam.cc:247-304 | returns 0; a fresh branching node gets the leaf's bits before the first bit where more and the leaf differ, zeros after, and that index as position; it holds more and the leaf, which point back at it, and takes more's place below less or as the root; the engine stays valid and the rules unchanged |
| Tcam.SoftTcam.LinkBranch | soft_tcam/soft_tcam.cc:270-303 | the links of insert_between leave the node map and root described by Between, a valid engine, and the rules held before the leaf was made |
| Tcam.SoftTcam.Relink | soft_tcam/soft_tcam.cc:272-301 | the branching node becomes the root or hangs below less, then more and the leaf hang below it, and nothing else changes |
| Tcam.SoftTcam.Insert | soft_tcam/soft_tcam.cc:74-145 | -1 exactly for a pattern with a mask-0 data-1 bit, changing nothing; otherwise 0 and exactly one rule (data, mask, priority, object) is added to the rules held before; into an empty trie the root becomes a single full node holding just the new entry; when a full node with this pattern exists no node is created |
| Tcam.SoftTcam.DetachFromParent | soft_tcam/soft_tcam.cc:332-353 | the parent clears only the slot holding the node, and hasChild tells whether it keeps another child |
| Tcam.SoftTcam.EraseNode | soft_tcam/soft_tcam.cc:306-366 | -1 exactly when the node has a child or an entry, changing nothing; otherwise the nodes are exactly those Pruned leaves: the node is gone, its parent's slot is cleared, and a parent left without children is erased in turn; the root becomes nullptr exactly when the trie empties; the rules are unchanged and the trie is valid again |
| Tcam.SoftTcam.Locate | soft_tcam/soft_tcam.cc:163-172 | nullptr exactly when no entry of the list has this priority and object; otherwise such an entry, the first one in list order |
| Tcam.SoftTcam.Erase | soft_tcam/soft_tcam.cc:147-184 | 0 exactly when a rule (data, mask, priority, object) is held, and then exactly one such rule is removed, no node is added and every remaining node keeps its pattern, position and parent; otherwise -1 with nothing changed |
| Tcam.SoftTcam.Free | soft_tcam/soft_tcam.cc:355-359 | the node's links are cleared and it leaves the heap; the allocation counter drops by one |
| Tcam.SoftTcam.DropEntries | soft_tcam/soft_tcam.cc:223-228 | every entry of the node's list is freed and the node keeps everything else |
| Tcam.SoftTcam.DestroyNode | soft_tcam/soft_tcam.cc:217-245 | the node's whole subtree and every entry its lists hold leave the heaps, and nothing else |
| Tcam.SoftTcam.DestroyChildren | soft_tcam/soft_tcam.cc:230-238 | the three child subtrees and their entries leave the heaps, and nothing else |
| Tcam.SoftTcam.DestroyChild | soft_tcam/soft_tcam.cc:230-238 | a child subtree (none for nullptr) and its entries leave the heaps |

## Left out

- The registry of engines (`s_list_head`, `m_list_next`) kept by the constructor and destructor, and the engine's own `operator new`/`operator delete` allocation counter: bookkeeping outside the trie.
- `dump`, `dump_node`, `sort_best`, `sort_worst`, `clear_access_counter`, `dump_access_counter` and the benchmarks: diagnostics and memory re-layout, outside the core.
- Messages written to `std::cerr`: I/O.
- `malloc`/`free` inside `operator new`/`operator delete`: the heaps hand out fresh addresses, and only the allocation counters are modelled.
- Tcam.SoftTcam.Find, Tcam.SoftTcam.Insert, Tcam.SoftTcam.Erase: the engine reads node and entry fields directly. Its reads therefore do not bump access counters, while the source's reads through getters do. The node and entry getters themselves do bump their counters.
- Tcam.SoftTcam.Erase: when several entries carry the same rule, the contract says one of them is removed; the scan removes the first in list order.
- Tcam.SoftTcam.Erase: the node map is stated only as shrunk (no node added, every remaining node keeping its pattern, position and parent). The exact map, with childless ancestors pruned, is stated one call down by Tcam.SoftTcam.EraseNode.
- Tcam.SoftTcam.Dispose: the allocation counters belong to each engine's own node and entry stores. In the source each `s_alloc_counter` is a single static per `<T, size>` shared by every engine of that type (soft_tcam/soft_tcam_node.cc:214, soft_tcam/soft_tcam_entry.cc:108). So with several live engines the source's counters do not return to 0 when one engine is destroyed, while the model's do.
- Tcam.SoftTcam.DestroyNode: specified against a ghost snapshot of the trie taken before the teardown starts, because the recursion destroys the structure it walks.
- Tcam.SoftTcam.FindEntry: the two `size`-long arrays are a sequence. Its length is proved never to exceed `size`.
- Tcam.SoftTcam.FindEntry: after a full node the source reads `key[size]`, one past the bitset's end. The result cannot matter because a full node has no children, so the model stops the descent there.
- Widths: `uint32_t` positions and priorities are `nat`/`U32`, because no operation computes with them beyond comparison. `size` is an ordinary constant rather than a template parameter.
- `key_is_in_data_and_mask` is declared at soft_tcam/soft_tcam.h:60 but never defined, so it is not part of this model.
