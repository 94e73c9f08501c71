/** The iterator object of lib-radix-tree.h and the bitmap scans it relies on. */
module Iter {
  import opened Words
  import opened TreeHeap
  import opened RadixTree

  /** struct radix_tree_iter */
  class Cursor {
    var index: nat
    var nextIndex: nat
    /** The set bits of iter->tags. */
    var tags: set<nat>
    var node: Node?

    /** radix_tree_iter_init */
    constructor (start: nat)
      ensures index == 0 && nextIndex == start && node == null
    {
      index, nextIndex, tags, node := 0, start, {}, null;
    }
  }

  /** radix_tree_find_next_bit: the next set bit from `i` on, or RADIX_TREE_MAP_SIZE. */
  function NextBit(s: set<nat>, i: nat): (r: nat)
    requires i <= 64
    ensures i <= r <= 64 && (r < 64 ==> r in s)
    ensures forall x :: i <= x < r ==> x !in s
    decreases 64 - i
  {
    if i == 64 || i in s then i else NextBit(s, i + 1)
  }

  predicate Above(s: set<nat>, k: nat, i: nat) { i + k in s }

  /** A bitmap of 64 bits shifted right by k. */
  function ShiftDown(s: set<nat>, k: nat): (r: set<nat>)
    ensures forall i {:trigger i in r} :: i in r <==> i < 64 && Above(s, k, i)
  {
    set i: nat | 0 <= i < 64 && Above(s, k, i)
  }

  /** tags >>= 1 after tags was shifted by k. */
  lemma ShiftAgain(s: set<nat>, k: nat, j: nat)
    requires forall i :: i in s ==> i < 64
    ensures ShiftDown(ShiftDown(s, k), j) == ShiftDown(s, k + j)
  {
    forall i: nat ensures i in ShiftDown(ShiftDown(s, k), j) <==> i in ShiftDown(s, k + j) {
      assert Above(ShiftDown(s, k), j, i) <==> i + j in ShiftDown(s, k);
      assert i + j in ShiftDown(s, k) <==> i + j < 64 && Above(s, k, i + j);
      assert Above(s, k + j, i) <==> i + (k + j) in s;
    }
  }

  lemma ShiftedBit(bits: set<nat>, k: nat, i: nat)
    requires forall i :: i in bits ==> i < 64
    ensures i in ShiftDown(bits, k) <==> i + k in bits
  {
    assert Above(bits, k, i) <==> i + k in bits;
  }

  /** Nothing is left of a bitmap after a shift: no bit is set from there on. */
  lemma NoneAhead(bits: set<nat>, k: nat)
    requires (forall i :: i in bits ==> i < 64) && ShiftDown(bits, k) == {}
    ensures forall i :: k <= i < 64 ==> i !in bits
  {
    forall i | k <= i < 64 ensures i !in bits { ShiftedBit(bits, k, i - k); }
  }

  /** The lowest bit of a shifted bitmap is the next bit of the bitmap itself. */
  lemma TagScan(bits: set<nat>, k: nat)
    requires (forall i :: i in bits ==> i < 64) && ShiftDown(bits, k) != {}
    ensures var o := NextBit(ShiftDown(bits, k), 0); k + o in bits && forall i :: k <= i < k + o ==> i !in bits
  {
    var tags := ShiftDown(bits, k);
    var i :| i in tags;
    var o := NextBit(tags, 0);
    assert i < 64 && o <= i;
    ShiftedBit(bits, k, o);
    forall j | k <= j < k + o ensures j !in bits {
      assert j - k !in tags;
      ShiftedBit(bits, k, j - k);
    }
  }
}
