/** The discipline of a node's entry list, stated on the sequence of its
    entries: where `insert_entry` splices a new entry in, what `erase_entry`
    leaves behind, and the priority order both keep. */
module EntryList {

  /** Priorities never increase along the list. */
  ghost predicate SortedDesc(ps: seq<int>)
  {
    forall i, j :: 0 <= i < j < |ps| ==> ps[i] >= ps[j]
  }

  /** Where the `prev`/`curr` walk of `insert_entry` that starts at index `i`
      stops: the first index at or after `i` whose priority is below `p`, or
      the end of the list. */
  function ScanFrom(ps: seq<int>, p: int, i: nat): (k: nat)
    requires i <= |ps|
    ensures i <= k <= |ps|
    decreases |ps| - i
  {
    if i == |ps| then i else if ps[i] < p then i else ScanFrom(ps, p, i + 1)
  }

  /** The index at which `insert_entry` places a new entry of priority `p`:
      the head when the list is empty or `p` beats the head strictly,
      otherwise where the walk from the second entry stops. */
  function SplicePoint(ps: seq<int>, p: int): nat
  {
    if |ps| == 0 || p > ps[0] then 0 else ScanFrom(ps, p, 1)
  }

  /** `s` with `x` placed at index `k`. */
  function Splice<X>(s: seq<X>, k: nat, x: X): (r: seq<X>)
    requires k <= |s|
  {
    s[..k] + [x] + s[k..]
  }

  /** `s` without its element at index `k`. */
  function RemoveAt<X>(s: seq<X>, k: nat): (r: seq<X>)
    requires k < |s|
  {
    s[..k] + s[k + 1..]
  }

  /** The walk stops at the first entry of lower priority: everything it
      passes has priority at least `p`. */
  lemma {:induction false} ScanFromStops(ps: seq<int>, p: int, i: nat)
    requires i <= |ps|
    ensures forall j :: i <= j < ScanFrom(ps, p, i) ==> ps[j] >= p
    ensures ScanFrom(ps, p, i) < |ps| ==> ps[ScanFrom(ps, p, i)] < p
    decreases |ps| - i
  {
    if i < |ps| && ps[i] >= p {
      ScanFromStops(ps, p, i + 1);
    }
  }

  /** On a sorted list the splice point splits it into the entries of
      priority at least `p` and those below `p`: a new entry goes after every
      entry of greater or equal priority, so equal priorities are kept in
      insertion order, and before every entry of lower priority. */
  lemma SplicePointSplits(ps: seq<int>, p: int)
    requires SortedDesc(ps)
    ensures SplicePoint(ps, p) <= |ps|
    ensures forall j :: 0 <= j < SplicePoint(ps, p) ==> ps[j] >= p
    ensures forall j :: SplicePoint(ps, p) <= j < |ps| ==> ps[j] < p
  {
    if |ps| > 0 && p <= ps[0] {
      ScanFromStops(ps, p, 1);
      var k := ScanFrom(ps, p, 1);
      forall j | k <= j < |ps| ensures ps[j] < p {
        assert ps[k] < p && ps[k] >= ps[j];
      }
    }
  }

  /** The head is chosen only when the list is empty or `p` is strictly
      greater than the head's priority. */
  lemma SplicePointHead(ps: seq<int>, p: int)
    ensures SplicePoint(ps, p) == 0 <==> |ps| == 0 || p > ps[0]
  {
    if |ps| > 0 && p <= ps[0] {
      assert ScanFrom(ps, p, 1) >= 1;
    }
  }

  /** `insert_entry` keeps the list sorted. */
  lemma SpliceSorted(ps: seq<int>, p: int)
    requires SortedDesc(ps)
    ensures SplicePoint(ps, p) <= |ps| && SortedDesc(Splice(ps, SplicePoint(ps, p), p))
  {
    SplicePointSplits(ps, p);
    var k := SplicePoint(ps, p);
    var r := Splice(ps, k, p);
    forall i, j | 0 <= i < j < |r| ensures r[i] >= r[j] {
      assert r[k] == p;
      assert i < k ==> r[i] == ps[i];
      assert k < i ==> r[i] == ps[i - 1];
      assert j < k ==> r[j] == ps[j];
      assert k < j ==> r[j] == ps[j - 1];
    }
  }

  /** Splicing adds exactly the new element, and the others keep their
      relative order. */
  lemma SpliceContents<X>(s: seq<X>, k: nat, x: X)
    requires k <= |s|
    ensures multiset(Splice(s, k, x)) == multiset(s) + multiset{x}
    ensures |Splice(s, k, x)| == |s| + 1 && Splice(s, k, x)[k] == x
    ensures RemoveAt(Splice(s, k, x), k) == s
  {
    assert s == s[..k] + s[k..];
  }

  /** `erase_entry` keeps the list sorted. */
  lemma RemoveSorted(ps: seq<int>, k: nat)
    requires k < |ps| && SortedDesc(ps)
    ensures SortedDesc(RemoveAt(ps, k))
  {
    var r := RemoveAt(ps, k);
    forall i, j | 0 <= i < j < |r| ensures r[i] >= r[j] {
      var i' := if i < k then i else i + 1;
      var j' := if j < k then j else j + 1;
      assert r[i] == ps[i'] && r[j] == ps[j'] && i' < j';
    }
  }

  /** Removing the element at `k` takes exactly that element away. */
  lemma RemoveAtContents<X>(s: seq<X>, k: nat)
    requires k < |s|
    ensures multiset(RemoveAt(s, k)) == multiset(s) - multiset{s[k]}
    ensures |RemoveAt(s, k)| == |s| - 1
  {
    assert s == s[..k] + [s[k]] + s[k + 1..];
  }

  /** The index of the first occurrence of `x` in `s`. */
  function IndexOf<X(==)>(s: seq<X>, x: X): (k: nat)
    requires x in s
    ensures k < |s| && s[k] == x
    ensures forall j :: 0 <= j < k ==> s[j] != x
  {
    if s[0] == x then 0 else 1 + IndexOf(s[1..], x)
  }

  /** No element occurs twice. */
  ghost predicate Distinct<X>(s: seq<X>)
  {
    forall i, j :: 0 <= i < j < |s| ==> s[i] != s[j]
  }

  /** Where each element of a spliced sequence comes from. */
  lemma SpliceAt<X>(s: seq<X>, k: nat, x: X, i: nat)
    requires k <= |s| && i <= |s|
    ensures |Splice(s, k, x)| == |s| + 1
    ensures Splice(s, k, x)[i] == if i < k then s[i] else if i == k then x else s[i - 1]
  {
  }

  /** Where each element of a sequence with one element removed comes from. */
  lemma RemoveAtAt<X>(s: seq<X>, k: nat, i: nat)
    requires k < |s| && i < |s| - 1
    ensures |RemoveAt(s, k)| == |s| - 1
    ensures RemoveAt(s, k)[i] == if i < k then s[i] else s[i + 1]
  {
  }

  /** Splicing in an element that is not there yet keeps the elements distinct. */
  lemma SpliceDistinct<X>(s: seq<X>, k: nat, x: X)
    requires k <= |s| && Distinct(s) && x !in s
    ensures Distinct(Splice(s, k, x))
  {
    var r := Splice(s, k, x);
    forall i, j | 0 <= i < j < |r| ensures r[i] != r[j] {
      SpliceAt(s, k, x, i);
      SpliceAt(s, k, x, j);
    }
  }

  /** Removing an element keeps the others distinct, and removes every
      occurrence of it. */
  lemma RemoveDistinct<X>(s: seq<X>, k: nat)
    requires k < |s| && Distinct(s)
    ensures Distinct(RemoveAt(s, k)) && s[k] !in RemoveAt(s, k)
  {
    var r := RemoveAt(s, k);
    forall i, j | 0 <= i < j < |r| ensures r[i] != r[j] {
      RemoveAtAt(s, k, i);
      RemoveAtAt(s, k, j);
    }
    forall i | 0 <= i < |r| ensures r[i] != s[k] {
      RemoveAtAt(s, k, i);
    }
  }
}
