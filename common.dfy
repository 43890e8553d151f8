/** Shared vocabulary: pointers into the node and entry stores, fixed-width
    integers, bit strings and the three-way branch slot of a ternary trie. */
module Common {

  /** A C++ pointer: either nullptr or the address of a live record in a store. */
  datatype Ptr = Null | Addr(a: nat)

  /** A value or nothing, as a `const T *` that may be nullptr. */
  datatype Option<T> = None | Some(value: T)

  /** `std::uint32_t`, the type of a rule priority. */
  type U32 = x: int | 0 <= x < 0x1_0000_0000

  /** `std::uint64_t`, the type of the access and allocation counters. */
  type U64 = x: int | 0 <= x < 0x1_0000_0000_0000_0000

  /** `++c` on a `std::uint64_t`: wraps to 0 after the largest value. */
  function Inc(c: U64): (r: U64)
    ensures c < 0xFFFF_FFFF_FFFF_FFFF ==> r == c + 1
    ensures c == 0xFFFF_FFFF_FFFF_FFFF ==> r == 0
  {
    (c + 1) % 0x1_0000_0000_0000_0000
  }

  /** The `m_access_counter` fields of every object of one class, by
      address. They live apart from the objects' other fields so that
      counting a read leaves the structure of the trie alone. An address that
      was never counted reads as 0. */
  class AccessCounters {
    var count: map<nat, U64>

    /** No object of the class has been counted yet. */
    constructor ()
      ensures count == map[]
    {
      count := map[];
    }

    /** The counter of the object at `a`. */
    function Of(a: nat): U64
      reads this
    {
      if a in count then count[a] else 0
    }

    /** `++m_access_counter` on the object at `a`. */
    method Bump(a: nat)
      modifies this
      ensures count == old(count)[a := Inc(old(Of(a)))]
    {
      count := count[a := Inc(Of(a))];
    }

    /** A fresh object's counter starts at 0. */
    method Reset(a: nat)
      modifies this
      ensures count == old(count)[a := 0]
    {
      count := count[a := 0];
    }

    /** A freed object takes its counter with it. */
    method Drop(a: nat)
      modifies this
      ensures count == old(count) - {a}
    {
      count := count - {a};
    }
  }

  /** The addresses a list holds. */
  ghost function Elems(list: seq<nat>): set<nat>
  {
    set y | y in list
  }

  /** Every counter outside `s` is as it was: none appears, none goes and
      none changes. */
  ghost predicate OnlyCountedIn(c: map<nat, U64>, c': map<nat, U64>, s: set<nat>)
  {
    forall y :: y !in s ==> (y in c' <==> y in c) && (y in c ==> c'[y] == c[y])
  }

  /** Freeing one live object leaves one fewer. */
  lemma KeysRemove<K, V>(m: map<K, V>, k: K)
    requires k in m
    ensures (m - {k}).Keys == m.Keys - {k}
    ensures |(m - {k}).Keys| == |m.Keys| - 1
  {
    assert m.Keys == (m - {k}).Keys + {k};
  }

  /** Allocating at an unused address makes one more. */
  lemma KeysAdd<K, V>(m: map<K, V>, k: K, v: V)
    requires k !in m
    ensures m[k := v].Keys == m.Keys + {k}
    ensures |m[k := v].Keys| == |m.Keys| + 1
  {
  }

  /** Updating one key and dropping another commute. */
  lemma UpdateRemoveCommute<K, V>(m: map<K, V>, p: K, v: V, x: K)
    requires p != x
    ensures m[p := v] - {x} == (m - {x})[p := v]
  {
  }

  /** A `std::bitset<size>`, indexed as the bitset indexes it: index 0 is the
      least-significant bit and is the first one every scan looks at. */
  type Bits = seq<bool>

  /** A (data, mask) pair is well formed when every wildcard bit (mask 0)
      carries data 0. */
  ghost predicate WellFormed(data: Bits, mask: Bits)
  {
    |data| == |mask| && forall i :: 0 <= i < |mask| ==> mask[i] || !data[i]
  }

  /** Bits [lo, hi) of two (data, mask) pairs are identical. */
  ghost predicate AgreeOn(d1: Bits, m1: Bits, d2: Bits, m2: Bits, lo: nat, hi: nat)
  {
    hi <= |d1| && hi <= |m1| && hi <= |d2| && hi <= |m2| &&
    forall i :: lo <= i < hi ==> d1[i] == d2[i] && m1[i] == m2[i]
  }

  /** `key` satisfies the pattern (data, mask) on bits [lo, hi): wherever the
      mask is 1 the key bit equals the data bit. */
  ghost predicate MatchesOn(key: Bits, data: Bits, mask: Bits, lo: nat, hi: nat)
  {
    hi <= |key| && hi <= |data| && hi <= |mask| &&
    forall i :: lo <= i < hi ==> mask[i] ==> key[i] == data[i]
  }

  /** A key that satisfies a pattern on [0, hi) satisfies every pattern
      that agrees with it there. */
  lemma MatchesAgree(key: Bits, d: Bits, m: Bits, prev: nat, hi: nat, d': Bits, m': Bits)
    requires MatchesOn(key, d, m, 0, prev) && MatchesOn(key, d, m, prev, hi)
    requires AgreeOn(d', m', d, m, 0, hi)
    ensures MatchesOn(key, d', m', 0, hi)
  {
  }

  /** `key` satisfies the whole pattern. */
  ghost predicate Matches(key: Bits, data: Bits, mask: Bits)
  {
    |key| == |data| == |mask| && MatchesOn(key, data, mask, 0, |key|)
  }

  /** The three child slots of a trie node. */
  datatype Slot = Zero | One | DontCare

  /** The slot a pattern selects at bit `i`: `ndc` when its mask bit is 0,
      otherwise `n0` or `n1` by its data bit. */
  function SlotOf(data: Bits, mask: Bits, i: nat): Slot
    requires i < |data| && i < |mask|
  {
    if !mask[i] then DontCare else if !data[i] then Zero else One
  }

  /** Two well-formed patterns that differ at bit `i` select different slots
      there, so they can hang below one node side by side. */
  lemma DistinctSlots(d1: Bits, m1: Bits, d2: Bits, m2: Bits, i: nat)
    requires WellFormed(d1, m1) && WellFormed(d2, m2)
    requires i < |d1| && i < |d2|
    requires d1[i] != d2[i] || m1[i] != m2[i]
    ensures SlotOf(d1, m1, i) != SlotOf(d2, m2, i)
  {
  }

  /** Two well-formed patterns that select the same slot at bit `i` agree there. */
  lemma SameSlotSameBits(d1: Bits, m1: Bits, d2: Bits, m2: Bits, i: nat)
    requires WellFormed(d1, m1) && WellFormed(d2, m2)
    requires i < |d1| && i < |d2|
    requires SlotOf(d1, m1, i) == SlotOf(d2, m2, i)
    ensures d1[i] == d2[i] && m1[i] == m2[i]
  {
  }
}
