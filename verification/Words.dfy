/** Shift and mask arithmetic on 64-bit indices (RADIX_TREE_MAP_SHIFT is 6).
    All shifts the tree uses are multiples of 6, so `>>` is written as repeated division by 64. */
module Words {
  const WORD: nat := 0x1_0000_0000_0000_0000
  const MAX_SHIFT: nat := 60

  /** index >> s, for s a multiple of 6. */
  function Shr(k: nat, s: nat): nat {
    if s < 6 then k else Shr(k, s - 6) / 64
  }

  /** 1 << s on unbounded integers, for s a multiple of 6. */
  function Pow2(s: nat): (p: nat)
    ensures p > 0
  {
    if s < 6 then 1 else 64 * Pow2(s - 6)
  }

  /** (index >> s) & RADIX_TREE_MAP_MASK */
  function Digit(k: nat, s: nat): (d: nat)
    ensures d < 64
  {
    Shr(k, s) % 64
  }

  /** shift_maxindex: (RADIX_TREE_MAP_SIZE << shift) - 1 in 64-bit arithmetic; at shift 60 the
      shifted value wraps to 0 and the subtraction wraps to the all-ones word. */
  function ShiftMaxIndex(s: nat): (m: nat)
    ensures m < WORD
  {
    ((64 * Pow2(s)) % WORD + WORD - 1) % WORD
  }

  lemma {:induction false} PowBound(s: nat)
    requires s % 6 == 0 && s <= 54
    ensures 64 * Pow2(s) <= 0x1000_0000_0000_0000 < WORD
  {
    assert Pow2(0) == 1;
    assert Pow2(6) == 0x40;
    assert Pow2(12) == 0x1000;
    assert Pow2(18) == 0x4_0000;
    assert Pow2(24) == 0x100_0000;
    assert Pow2(30) == 0x4000_0000;
    assert Pow2(36) == 0x10_0000_0000;
    assert Pow2(42) == 0x400_0000_0000;
    assert Pow2(48) == 0x1_0000_0000_0000;
    assert Pow2(54) == 0x40_0000_0000_0000;
  }

  lemma Pow60()
    ensures Pow2(60) == 0x1000_0000_0000_0000
    ensures ShiftMaxIndex(60) == WORD - 1
  {
    PowBound(54);
    assert Pow2(54) == 0x40_0000_0000_0000 by {
      assert Pow2(0) == 1;
      assert Pow2(12) == 0x1000;
      assert Pow2(24) == 0x100_0000;
      assert Pow2(36) == 0x10_0000_0000;
      assert Pow2(48) == 0x1_0000_0000_0000;
    }
    assert Pow2(60) == 0x1000_0000_0000_0000;
  }

  lemma MulMono(a: nat, b: nat, c: nat)
    requires a <= b
    ensures a * c <= b * c
  {
  }

  lemma Regroup(k: nat, q: nat, c: nat, p: nat)
    requires q * p <= k < (q + 1) * p && 64 * c <= q < 64 * c + 64
    ensures c * (64 * p) <= k < (c + 1) * (64 * p)
  {
    MulMono(64 * c, q, p);
    MulMono(q + 1, 64 * c + 64, p);
    assert (64 * c) * p == c * (64 * p);
    assert (64 * c + 64) * p == (c + 1) * (64 * p);
  }

  /** Shr rounds down: index >> s is the block of 2^s indices that holds the index. */
  lemma {:induction false} ShrBounds(k: nat, s: nat)
    ensures Shr(k, s) * Pow2(s) <= k < (Shr(k, s) + 1) * Pow2(s)
  {
    if s >= 6 {
      ShrBounds(k, s - 6);
      Regroup(k, Shr(k, s - 6), Shr(k, s), Pow2(s - 6));
    }
  }

  /** The block of an index is determined by its bounds. */
  lemma {:induction false} ShrUnique(k: nat, s: nat, q: nat)
    requires q * Pow2(s) <= k < (q + 1) * Pow2(s)
    ensures Shr(k, s) == q
  {
    ShrBounds(k, s);
    var x, p := Shr(k, s), Pow2(s);
    if x < q { MulMono(x + 1, q, p); }
    if q < x { MulMono(q + 1, x, p); }
  }

  /** The range test of the lookup: an index is within the maximum index of a root at shift s
      exactly when nothing is left of it above that root's six bits. */
  lemma {:induction false} MaxIndexIsCover(k: nat, s: nat)
    requires k < WORD && s % 6 == 0 && s <= 60
    ensures k <= ShiftMaxIndex(s) <==> Shr(k, s + 6) == 0
  {
    ShrBounds(k, s + 6);
    assert Pow2(s + 6) == 64 * Pow2(s);
    if s == 60 { Pow60(); } else { PowBound(s); }
    var x, p := Shr(k, s + 6), Pow2(s + 6);
    if x >= 1 { MulMono(1, x, p); }
  }

  /** Larger shifts leave smaller values. */
  lemma {:induction false} ShrZeroUp(k: nat, s: nat, s': nat)
    requires s <= s' && s % 6 == 0 && s' % 6 == 0 && Shr(k, s) == 0
    ensures Shr(k, s') == 0
  {
    if s < s' { ShrZeroUp(k, s, s' - 6); }
  }

  lemma StepUp(s: nat)
    requires s % 6 == 0
    ensures (s + 6) % 6 == 0
  {
  }

  lemma StepDown(s: nat)
    requires s % 6 == 0 && s > 0
    ensures s >= 6 && (s - 6) % 6 == 0
  {
  }

  lemma LastStep(s: nat, m: nat)
    requires s % 6 == 0 && m % 6 == 0 && s <= m < s + 6
    ensures s == m
  {
  }

  /** The digit just below the top of an index is not zero. */
  lemma TopDigit(k: nat, s: nat)
    requires Shr(k, s + 6) == 0 && Shr(k, s) > 0
    ensures Digit(k, s) > 0
  {
    assert Shr(k, s + 6) == Shr(k, s) / 64;
  }

  /** No 64-bit index reaches above bit 66. */
  lemma ShrTop(k: nat)
    requires k < WORD
    ensures Shr(k, 66) == 0
  {
    Pow60();
    MaxIndexIsCover(k, 60);
  }

  lemma TopShift(k: nat, s: nat)
    requires k < WORD && s % 6 == 0 && s <= 66 && Shr(k, s) > 0
    ensures s <= 60
  {
    ShrTop(k);
    assert s != 66;
  }

  /** The first index of block q of size 2^s: q << s. */
  function First(s: nat, q: nat): (k: nat) { q * Pow2(s) }

  /** An index lies below a block exactly when its own block comes earlier. */
  lemma FirstBelow(k: nat, s: nat, q: nat)
    ensures k < First(s, q) <==> Shr(k, s) < q
  {
    ShrBounds(k, s);
    var x, p := Shr(k, s), Pow2(s);
    if x < q { MulMono(x + 1, q, p); } else { MulMono(q, x, p); }
  }

  lemma FirstIn(s: nat, q: nat)
    ensures Shr(First(s, q), s) == q
  {
    assert q * Pow2(s) < (q + 1) * Pow2(s) by { assert (q + 1) * Pow2(s) == q * Pow2(s) + Pow2(s); }
    ShrUnique(First(s, q), s, q);
  }

  /** Block q one level up starts where its first sub-block starts. */
  lemma FirstUp(s: nat, q: nat)
    ensures First(s + 6, q) == First(s, 64 * q)
  {
    assert Pow2(s + 6) == 64 * Pow2(s);
    assert q * (64 * Pow2(s)) == (64 * q) * Pow2(s);
  }

  lemma ShrMono(a: nat, b: nat, s: nat)
    requires a <= b
    ensures Shr(a, s) <= Shr(b, s)
  {
    FirstBelow(b, s, Shr(a, s));
    FirstBelow(a, s, Shr(a, s));
  }

  /** next_index: (index & ~node_maxindex) + (offset << shift), for a node at shift s. */
  function NextIndex(k: nat, s: nat, offset: nat): (r: nat)
    ensures r < WORD
  {
    (First(s + 6, Shr(k, s + 6)) + First(s, offset)) % WORD
  }

  lemma NextIndexIs(k: nat, s: nat, offset: nat)
    requires First(s, 64 * Shr(k, s + 6) + offset) < WORD
    ensures NextIndex(k, s, offset) == First(s, 64 * Shr(k, s + 6) + offset)
  {
    var q := Shr(k, s + 6);
    FirstUp(s, q);
    assert First(s, 64 * q + offset) == First(s, 64 * q) + First(s, offset) by {
      assert (64 * q + offset) * Pow2(s) == (64 * q) * Pow2(s) + offset * Pow2(s);
    }
  }

  /** The 64-bit range is a whole number of blocks of every size up to 2^60. */
  lemma {:induction false} WordBlocks(s: nat) returns (c: nat)
    requires s % 6 == 0 && s <= 60
    ensures WORD == First(s, c) && c > 0
    decreases 60 - s
  {
    if s == 60 {
      Pow60();
      c := 16;
    } else {
      var d := WordBlocks(s + 6);
      FirstUp(s, d);
      c := 64 * d;
    }
  }

  /** The block of a 64-bit index ends within the 64-bit range. */
  lemma BlockEnd(k: nat, s: nat)
    requires k < WORD && s % 6 == 0 && s <= 60
    ensures First(s, Shr(k, s) + 1) <= WORD
  {
    var c := WordBlocks(s);
    FirstBelow(k, s, c);
    MulMono(Shr(k, s) + 1, c, Pow2(s));
  }

  lemma NextIndexWraps(k: nat, s: nat, offset: nat)
    ensures NextIndex(k, s, offset) == First(s, 64 * Shr(k, s + 6) + offset) % WORD
  {
    var q := Shr(k, s + 6);
    FirstUp(s, q);
    assert (64 * q + offset) * Pow2(s) == (64 * q) * Pow2(s) + offset * Pow2(s);
  }
}
