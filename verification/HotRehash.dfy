/** hotring_rehash: a table of twice the size takes over the nodes of the old one. */
module HotRehash {
  import opened RingOrder
  import opened RingHeap
  import opened RingSplit
  import opened HotRing
  import Words

  // ---------------------------------------------------------------- milestones in place

  /** x is the milestone for slot j of the new table: not one of the stored nodes K, and on the ring its key says. */
  ghost predicate MarkSpec(mem: Mem<HashNode>, rings: Rings<HashNode>, x: HashNode, j: nat, H: nat, K: set<HashNode>) {
    && x in mem && x !in K && mem[x].key == j * H
    && j / 2 in rings && MarkOk(mem, rings[j / 2], x)
  }

  ghost predicate SlotMark(mem: Mem<HashNode>, rings: Rings<HashNode>, s: Slots, j: nat, H: nat, K: set<HashNode>)
    requires j < |s|
  {
    s[j] != null ==> MarkSpec(mem, rings, s[j], j, H, K)
  }

  /** A node of the old table is a stored one or a milestone. */
  ghost predicate Known(x: HashNode, s: Slots, K: set<HashNode>) { x in K || x in s }

  ghost predicate AllKnown(mem: Mem<HashNode>, s: Slots, K: set<HashNode>) {
    forall x {:trigger Known(x, s, K)} :: x in mem ==> Known(x, s, K)
  }

  ghost predicate Marks(mem: Mem<HashNode>, rings: Rings<HashNode>, s: Slots, H: nat, K: set<HashNode>) {
    && (forall j: nat {:trigger SlotMark(mem, rings, s, j, H, K)} :: j < |s| ==> SlotMark(mem, rings, s, j, H, K))
    && AllKnown(mem, s, K)
  }

  /** Every bucket that had nodes has its old head. */
  ghost predicate SameHeads(r0: Rings<HashNode>, rings: Rings<HashNode>) {
    rings.Keys == r0.Keys && forall i {:trigger rings[i]} {:trigger r0[i]} :: i in r0 ==>
      |rings[i]| > 0 && |r0[i]| > 0 && rings[i][0] == r0[i][0]
  }

  lemma SlotKeys(j: nat, l: nat, H: nat)
    requires H > 0 && j != l
    ensures j * H != l * H
  {
    if j < l { Words.MulMono(j + 1, l, H); } else { Words.MulMono(l + 1, j, H); }
  }

  lemma MarkStep(mem: Mem<HashNode>, rings: Rings<HashNode>, s: Slots, H: nat, K: set<HashNode>, j: nat, i: nat,
          at: nat, x: HashNode, c: Cell<HashNode>)
    requires H > 0 && TableOk(mem, rings, 2 * H) && Marks(mem, rings, s, H, K)
    requires i in rings && BucketOk(mem, rings[i], 2 * H, i)
    requires j < |s| && s[j] == null && i in rings && x !in mem && x !in K && j / 2 == i && c.key == j * H
    requires Stop(KeysOf(mem, rings[i]), at, c.key) && rings[i][at] in mem
    ensures Marks(PutMem(mem, rings, i, at, x, c), rings[i := PutRing(rings, i, at, x)], s[j := x], H, K)
  {
    var R := rings[i];
    var m, rs, s' := PutMem(mem, rings, i, at, x, c), rings[i := PutRing(rings, i, at, x)], s[j := x];
    NewMark(mem, R, at, x, c);
    forall l: nat {:trigger SlotMark(m, rs, s', l, H, K)} | l < |s'| ensures SlotMark(m, rs, s', l, H, K) {
      if l != j && s[l] != null {
        assert SlotMark(mem, rings, s, l, H, K);
        assert BucketOk(mem, rings[l / 2], 2 * H, l / 2);
        if l / 2 == i {
          SlotKeys(j, l, H);
          MarkStays(mem, R, at, x, c, s[l]);
        } else {
          MarkElsewhere(mem, m, rings, l / 2, s[l]);
        }
      }
    }
    forall y {:trigger Known(y, s', K)} | y in m ensures Known(y, s', K) {
      if y == x {
        assert s'[j] == x;
      } else if y !in K {
        assert Known(y, s, K);
        var l :| 0 <= l < |s| && s[l] == y;
        assert s'[l] == y;
      }
    }
  }

  lemma MarkElsewhere(mem: Mem<HashNode>, m: Mem<HashNode>, rings: Rings<HashNode>, l: nat, y: HashNode)
    requires l in rings && MarkOk(mem, rings[l], y) && y in mem && y in m && mem[y].key == m[y].key
    requires forall z {:trigger z in mem} :: z in mem ==> z in m && mem[z].key == m[z].key
    requires forall a {:trigger rings[l][a]} :: 0 <= a < |rings[l]| ==> rings[l][a] in mem
    ensures MarkOk(m, rings[l], y)
  {
    var a: nat :| MarkAt(mem, rings[l], y, a);
    assert KeysOf(mem, rings[l]) == KeysOf(m, rings[l]);
    assert MarkAt(m, rings[l], y, a);
  }

  lemma PutFrame(mem: Mem<HashNode>, rings: Rings<HashNode>, T: nat, i: nat, at: nat, x: HashNode, c: Cell<HashNode>)
    requires T > 0 && (forall l {:trigger rings[l]} :: l in rings ==> |rings[l]| > 0) && x !in mem && i in rings &&
      at < |rings[i]| && rings[i][at] in mem
    ensures SameHeads(rings, rings[i := PutRing(rings, i, at, x)])
    ensures SameData(mem, PutMem(mem, rings, i, at, x, c), mem.Keys) &&
      PutMem(mem, rings, i, at, x, c).Keys == mem.Keys + {x}
  {
  }

  /** While milestones go in: h was (m0, r0), and s holds the milestones so far. */
  ghost predicate Initing(h: Table, s: Slots, m0: Mem<HashNode>, r0: Rings<HashNode>)
    reads h, h.slots, h.mem.Keys
  {
    h.Ok() && h.k < h.n && Started(h.mem, h.rings, s, Bit(h.n - h.k - 1), m0, r0)
  }

  ghost predicate Started(mem: Mem<HashNode>, rings: Rings<HashNode>, s: Slots, H: nat, m0: Mem<HashNode>,
          r0: Rings<HashNode>)
  {
    && Marks(mem, rings, s, H, m0.Keys)
    && m0.Keys <= mem.Keys && SameData(m0, mem, m0.Keys) && SameHeads(r0, rings)
    && forall i {:trigger r0[i]} :: i in r0 ==> r0[i][0] in m0
  }

  lemma StartedStep(mem: Mem<HashNode>, rings: Rings<HashNode>, s: Slots, H: nat, m0: Mem<HashNode>,
          r0: Rings<HashNode>, j: nat, i: nat, at: nat, x: HashNode, c: Cell<HashNode>)
    requires H > 0 && TableOk(mem, rings, 2 * H) && Started(mem, rings, s, H, m0, r0)
    requires i in rings && BucketOk(mem, rings[i], 2 * H, i)
    requires j < |s| && s[j] == null && i in rings && x !in mem && j / 2 == i && c.key == j * H
    requires Stop(KeysOf(mem, rings[i]), at, c.key) && rings[i][at] in mem
    ensures Started(PutMem(mem, rings, i, at, x, c), rings[i := PutRing(rings, i, at, x)], s[j := x], H, m0, r0)
  {
    MarkStep(mem, rings, s, H, m0.Keys, j, i, at, x, c);
    RingsFilled(mem, rings, H);
    PutFrame(mem, rings, 2 * H, i, at, x, c);
    SameDataTrans(m0, mem, PutMem(mem, rings, i, at, x, c), m0.Keys, mem.Keys);
  }

  /** One milestone of bucket i, for its upper or its lower half: __hash_create and insert_entries. */
  method AddMilestone(h: Table, i: nat, upper: bool, ghost s: Slots, ghost m0: Mem<HashNode>, ghost r0: Rings<HashNode>)
    returns (node: HashNode)
    requires Initing(h, s, m0, r0) && i in r0 && HalfSlot(i, upper) < |s| && s[HalfSlot(i, upper)] == null
    modifies h, h.slots, h.counters, h.active, h.mem.Keys
    ensures Initing(h, s[HalfSlot(i, upper) := node], m0, r0) && fresh(node) && h.mem.Keys == old(h.mem).Keys + {node}
  {
    ghost var mem, rings := h.mem, h.rings;
    var tag := if upper then Bit(h.n - h.k - 1) else 0;
    var key := MilestoneKey(h.n, h.k, i, upper);
    MilestoneArgs(h.n, h.k, i, upper);
    var err; ghost var at;
    assert BucketOk(mem, rings[i], h.T(), i);
    node, err, at := h.Add(i, key, tag, 0);
    StartedStep(mem, rings, s, Bit(h.n - h.k - 1), m0, r0, HalfSlot(i, upper), i, at, node, Cell(Poison, key, tag, 0));
  }

  /** The slot for a half of bucket i in the table of twice the size. */
  function HalfSlot(i: nat, upper: bool): nat { if upper then 2 * i + 1 else 2 * i }

  function MilestoneKey(n: nat, k: nat, i: nat, upper: bool): nat
    requires k < n
  {
    i * Bit(n - k) + if upper then Bit(n - k - 1) else 0
  }

  lemma MilestoneArgs(n: nat, k: nat, i: nat, upper: bool)
    requires k < n
    ensures Bit(n - k) == 2 * Bit(n - k - 1) && HalfSlot(i, upper) / 2 == i &&
      Bucket(MilestoneKey(n, k, i, upper), Bit(n - k)) == i
    ensures MilestoneKey(n, k, i, upper) == i * Bit(n - k) + if upper then Bit(n - k - 1) else 0
    ensures MilestoneKey(n, k, i, upper) == HalfSlot(i, upper) * Bit(n - k - 1)
  {
    SlotKey(HalfSlot(i, upper), Bit(n - k - 1));
  }

  lemma SlotKey(j: nat, H: nat)
    requires H > 0
    ensures j * H == j / 2 * (2 * H) + j % 2 * H && Bucket(j * H, 2 * H) == j / 2
  {
    assert j == 2 * (j / 2) + j % 2;
    assert j / 2 * (2 * H) == 2 * (j / 2) * H;
    assert j * H == 2 * (j / 2) * H + j % 2 * H;
    BucketBounds(j * H, 2 * H, j / 2);
  }

  lemma RingsFilled(mem: Mem<HashNode>, rings: Rings<HashNode>, H: nat)
    requires H > 0 && TableOk(mem, rings, 2 * H)
    ensures forall i {:trigger rings[i]} :: i in rings ==> |rings[i]| > 0 && rings[i][0] in mem
  {
    forall i {:trigger rings[i]} | i in rings
      ensures |rings[i]| > 0 && rings[i][0] in mem
    {
      assert BucketOk(mem, rings[i], 2 * H, i);
    }
  }

  /** The heads of the two halves of bucket i. */
  method SetHeads(nu: Table, i: nat, x: HashNode, y: HashNode)
    requires 2 * i + 1 < nu.slots.Length
    modifies nu.slots
    ensures nu.slots[..] == old(nu.slots[..])[2 * i + 1 := y][2 * i := x]
  {
    nu.slots[2 * i + 1] := y;
    nu.slots[2 * i] := x;
  }

  /** The two milestones of a bucket, the upper one first. */
  method AddMilestones(h: Table, nu: Table, i: nat, ghost m0: Mem<HashNode>, ghost r0: Rings<HashNode>)
    returns (x: HashNode, y: HashNode)
    requires nu != h && nu.slots != h.slots && nu.slots.Length == 2 * h.slots.Length && i < h.slots.Length
    requires Initing(h, nu.slots[..], m0, r0) && i in r0 && SlotsDone(nu.slots[..], r0, i)
    modifies h, h.slots, h.counters, h.active, h.mem.Keys, nu.slots
    ensures Initing(h, nu.slots[..], m0, r0) && SlotsDone(nu.slots[..], r0, i + 1)
    ensures fresh(x) && fresh(y) && h.mem.Keys == old(h.mem).Keys + {x, y}
  {
    ghost var s := nu.slots[..];
    assert s[2 * i] == s[2 * i + 1] == null;
    y := AddMilestone(h, i, true, s, m0, r0);
    x := AddMilestone(h, i, false, s[2 * i + 1 := y], m0, r0);
    SetHeads(nu, i, x, y);
    SlotsStep(s, r0, i, x, y);
  }

  /** The entries for the first i buckets are made. */
  ghost predicate SlotsDone(s: Slots, rings: Rings<HashNode>, i: nat) {
    forall j {:trigger s[j]} :: 0 <= j < |s| ==> (s[j] != null <==> j < 2 * i && j / 2 in rings)
  }

  lemma SlotsStep(s: Slots, r: Rings<HashNode>, i: nat, x: HashNode, y: HashNode)
    requires SlotsDone(s, r, i) && 2 * i + 1 < |s| && i in r
    ensures SlotsDone(s[2 * i + 1 := y][2 * i := x], r, i + 1)
  {
  }

  lemma SlotsSkip(s: Slots, r: Rings<HashNode>, i: nat)
    requires SlotsDone(s, r, i) && i !in r
    ensures SlotsDone(s, r, i + 1)
  {
  }

  /** One round of the loop of hotring_rehash_init. */
  method InitBucket(h: Table, nu: Table, i: nat, ghost m0: Mem<HashNode>, ghost r0: Rings<HashNode>)
    requires nu != h && nu.slots != h.slots && nu.counters != h.counters && nu.active != h.active
    requires nu.slots.Length == 2 * h.slots.Length && i < h.slots.Length
    requires Initing(h, nu.slots[..], m0, r0) && SlotsDone(nu.slots[..], r0, i)
    modifies h, h.slots, h.counters, h.active, h.mem.Keys, nu.slots
    ensures Initing(h, nu.slots[..], m0, r0) && SlotsDone(nu.slots[..], r0, i + 1)
    ensures forall x :: x in h.mem ==> x in old(h.mem) || fresh(x)
    ensures AllQuiet(nu) <==> old(AllQuiet(nu))
  {
    assert HeadAt(h.slots[..], h.rings, i);
    if h.slots[i] != null { var x, y := AddMilestones(h, nu, i, m0, r0); } else { SlotsSkip(nu.slots[..], r0, i); }
  }

  /** hotring_rehash_init: a new table with an entry for each half of each ring, whose heads are the milestones. */
  method RehashInit(h: Table) returns (nu: Table)
    requires h.Ok() && 2 <= h.k < h.n && h.n == NBITS && h.k < 30
    modifies h, h.slots, h.counters, h.active, h.mem.Keys
    ensures fresh(nu) && fresh(nu.slots) && fresh(nu.counters) && fresh(nu.active)
    ensures nu.n == NBITS && nu.k == h.k + 1 && nu.slots.Length == 2 * h.slots.Length == Bit(nu.k)
    ensures nu.counters.Length == nu.active.Length == nu.slots.Length
    ensures Initing(h, nu.slots[..], old(h.mem), old(h.rings)) && fresh(h.mem.Keys - old(h.mem).Keys)
    ensures SlotsDone(nu.slots[..], old(h.rings), h.slots.Length) && AllQuiet(nu)
  {
    nu := new Table(NBITS, h.k + 1);
    ghost var m0, r0 := h.mem, h.rings;
    RingsFilled(m0, r0, Bit(h.n - h.k - 1));
    var i := 0;
    while i < h.slots.Length
      invariant i <= h.slots.Length && fresh(h.mem.Keys - m0.Keys)
      invariant Initing(h, nu.slots[..], m0, r0) && SlotsDone(nu.slots[..], r0, i) && AllQuiet(nu)
    {
      InitBucket(h, nu, i, m0, r0);
      i := i + 1;
    }
  }

  // ---------------------------------------------------------------- the split

  /** Where __hash_get finds a milestone: behind the head, or at the head if that has its key. */
  lemma FoundMark(m1: Mem<HashNode>, mem: Mem<HashNode>, R: seq<HashNode>, x: HashNode, at: nat)
    requires KeysOf(m1, R) == KeysOf(mem, R) && MarkOk(m1, R, x) && KeyOf(m1, x) == KeyOf(mem, x)
    requires FirstAt(KeysOf(mem, R), KeyOf(mem, x), at)
    ensures at == 0 <==> KeysOf(mem, R)[0] == KeyOf(mem, x)
    ensures at > 0 ==> R[at] == x
  {
    var a: nat :| MarkAt(m1, R, x, a);
    assert KeysOf(m1, R)[0] == KeyOf(m1, R[0]);
  }

  /** The milestone is on the ring, so __hash_get finds it or a node like it. */
  lemma MarkKey(m1: Mem<HashNode>, R: seq<HashNode>, x: HashNode)
    requires MarkOk(m1, R, x)
    ensures KeyOf(m1, x) in KeysOf(m1, R)
  {
    var a: nat :| MarkAt(m1, R, x, a);
    assert KeysOf(m1, R)[a] == KeyOf(m1, x);
  }

  lemma MulNext(i: nat, m: nat)
    ensures (i + 1) * m == i * m + m
  {
  }

  lemma MarkFits(h: nat, k: nat, n: nat, j: nat)
    requires k < n && j / 2 < Bit(k) && h == Bit(n - k - 1)
    ensures j * h < Bit(n) && Bucket(j * h, Bit(n - k)) == j / 2 && Bit(n - k) == 2 * h
  {
    var i, b := j / 2, Bit(k);
    SlotKey(j, h);
    BitSum(k, n - k);
    Words.MulMono(i + 1, b, 2 * h);
    MulNext(i, 2 * h);
    assert j % 2 * h <= h;
  }

  /** Only the two multiples of H in a bucket hide a milestone. */
  lemma HeadMultiple(key: nat, H: nat, i: nat)
    requires H > 0 && Bucket(key, 2 * H) == i
    ensures key % H == 0 <==> key == 2 * i * H || key == (2 * i + 1) * H
  {
    BucketHalves(key, H);
    if key == 2 * i * H { BucketBounds(key, H, 2 * i); }
    if key == (2 * i + 1) * H { BucketBounds(key, H, 2 * i + 1); }
  }

  lemma SameKeys(m1: Mem<HashNode>, mem: Mem<HashNode>, R: seq<HashNode>)
    requires m1.Keys == mem.Keys && SameData(m1, mem, m1.Keys)
    ensures KeysOf(m1, R) == KeysOf(mem, R)
  {
    forall l | 0 <= l < |R|
      ensures KeyOf(m1, R[l]) == KeyOf(mem, R[l])
    {
      assert R[l] in m1 ==> SameNode(m1, mem, R[l]);
    }
  }

  lemma SplitPoints(m1: Mem<HashNode>, mem: Mem<HashNode>, R: seq<HashNode>, H: nat, i: nat, x: HashNode, y: HashNode)
    requires H > 0 && BucketOk(mem, R, 2 * H, i) && m1.Keys == mem.Keys && SameData(m1, mem, m1.Keys)
    requires x in m1 && m1[x].key == 2 * i * H && MarkOk(m1, R, x)
    requires y in m1 && m1[y].key == (2 * i + 1) * H && MarkOk(m1, R, y)
    ensures 2 * i * H in KeysOf(mem, R) && (2 * i + 1) * H in KeysOf(mem, R)
  {
    SameKeys(m1, mem, R);
    MarkKey(m1, R, x);
    MarkKey(m1, R, y);
  }

  lemma SplitFound(m1: Mem<HashNode>, mem: Mem<HashNode>, R: seq<HashNode>, H: nat, i: nat, x: HashNode, y: HashNode,
          a: nat, b: nat)
    requires H > 0 && BucketOk(mem, R, 2 * H, i) && m1.Keys == mem.Keys && SameData(m1, mem, m1.Keys)
    requires x in m1 && m1[x].key == 2 * i * H && MarkOk(m1, R, x)
    requires y in m1 && m1[y].key == (2 * i + 1) * H && MarkOk(m1, R, y)
    requires FirstAt(KeysOf(mem, R), 2 * i * H, a) && FirstAt(KeysOf(mem, R), (2 * i + 1) * H, b)
    ensures a > 0 && b > 0 <==> KeyOf(m1, R[0]) % H != 0
    ensures (a > 0 ==> R[a] == x) && (b > 0 ==> R[b] == y)
  {
    SameKeys(m1, mem, R);
    assert SameNode(m1, mem, x) && SameNode(m1, mem, y) && SameNode(m1, mem, R[0]);
    FoundMark(m1, mem, R, x, a);
    FoundMark(m1, mem, R, y, b);
    assert R[0] in mem;
    HeadMultiple(mem[R[0]].key, H, i);
  }

  /** The two lookups of the split. */
  method FindEnds(h: Table, i: nat, ghost m1: Mem<HashNode>, ghost x: HashNode, ghost y: HashNode)
    returns (head1: HashNode?, tail1: HashNode?, head2: HashNode?, tail2: HashNode?, ghost a: nat, ghost b: nat)
    requires h.Coupled() && h.k < h.n && i in h.rings && BucketOk(h.mem, h.rings[i], Bit(h.n - h.k), i)
    requires m1.Keys == h.mem.Keys && SameData(m1, h.mem, m1.Keys)
    requires x in m1 && m1[x].key == 2 * i * Bit(h.n - h.k - 1) && MarkOk(m1, h.rings[i], x)
    requires y in m1 && m1[y].key == (2 * i + 1) * Bit(h.n - h.k - 1) && MarkOk(m1, h.rings[i], y)
    modifies h.counters, h.mem.Keys`counter
    ensures h.Coupled()
    ensures FirstAt(KeysOf(h.mem, h.rings[i]), 2 * i * Bit(h.n - h.k - 1), a)
    ensures FirstAt(KeysOf(h.mem, h.rings[i]), (2 * i + 1) * Bit(h.n - h.k - 1), b)
    ensures tail2 == (if a == 0 then null else h.rings[i][a - 1]) &&
      tail1 == (if b == 0 then null else h.rings[i][b - 1])
    ensures head1 == h.rings[i][a] && head2 == h.rings[i][b] && (a > 0 ==> head1 == x) && (b > 0 ==> head2 == y)
    ensures a > 0 && b > 0 <==> KeyOf(m1, h.rings[i][0]) % Bit(h.n - h.k - 1) != 0
  {
    var H := Bit(h.n - h.k - 1);
    MarkFits(H, h.k, h.n, 2 * i);
    MarkFits(H, h.k, h.n, 2 * i + 1);
    SplitPoints(m1, h.mem, h.rings[i], H, i, x, y);
    var res1, res2;
    res1, head1, tail2, a := h.Get(2 * i * H);
    res2, head2, tail1, b := h.Get((2 * i + 1) * H);
    SplitFound(m1, h.mem, h.rings[i], H, i, x, y, a, b);
  }

  /** The two stores of the split; a store through null does not return. */
  method StoreEnds(h: Table, i: nat, head1: HashNode, tail1: HashNode?, head2: HashNode, tail2: HashNode?, ghost a: nat,
          ghost b: nat)
    returns (ok: bool)
    requires h.Coupled() && i in h.rings && a < |h.rings[i]| && b < |h.rings[i]|
    requires head1 == h.rings[i][a] && head2 == h.rings[i][b]
    requires forall l {:trigger h.rings[i][l]} :: 0 <= l < |h.rings[i]| ==> h.rings[i][l] in h.mem
    requires tail2 == (if a == 0 then null else h.rings[i][a - 1]) &&
      tail1 == (if b == 0 then null else h.rings[i][b - 1])
    modifies h`mem, h.mem.Keys
    ensures ok <==> a > 0 && b > 0
    ensures ok ==> h.Coupled() && h.mem == SplitMem(old(h.mem), h.rings[i], a, b)
  {
    assert (tail1 != null ==> tail1.View() == h.mem[tail1]) && (tail2 != null ==> tail2.View() == h.mem[tail2]);
    if tail1 == null { return false; }
    tail1.next, tail1.counter := head1, 0;
    if tail2 == null { return false; }
    tail2.next, tail2.counter := head2, 0;
    ghost var m := SplitMem(h.mem, h.rings[i], a, b);
    assert forall x {:trigger x.View()} :: x in m ==> x in h.mem && x.View() == m[x];
    h.mem := m;
    return true;
  }

  /** One ring is split exactly when its head's key hides no milestone. */
  method SplitBucket(h: Table, nu: Table, i: nat, ghost m1: Mem<HashNode>, ghost K: set<HashNode>,
          ghost rs: Rings<HashNode>)
    returns (ok: bool, ghost rs': Rings<HashNode>)
    requires h.Coupled() && h.k < h.n && i in h.rings && 2 * i + 1 < nu.slots.Length
    requires SplitOk(h.mem, h.rings, rs, Bit(h.n - h.k - 1), i) && m1.Keys == h.mem.Keys && SameData(m1, h.mem, m1.Keys)
    requires nu.slots[2 * i] != null && MarkSpec(m1, h.rings, nu.slots[2 * i], 2 * i, Bit(h.n - h.k - 1), K)
    requires nu.slots[2 * i + 1] != null && MarkSpec(m1, h.rings, nu.slots[2 * i + 1], 2 * i + 1, Bit(h.n - h.k - 1), K)
    modifies h`mem, h.counters, h.mem.Keys
    ensures |h.rings[i]| > 0 && (ok <==> KeyOf(m1, h.rings[i][0]) % Bit(h.n - h.k - 1) != 0)
    ensures ok ==> h.Coupled() && m1.Keys == h.mem.Keys && SameData(m1, h.mem, m1.Keys)
    ensures ok ==> SplitOk(h.mem, h.rings, rs', Bit(h.n - h.k - 1), i + 1)
    ensures ok ==> rs'.Keys == rs.Keys + {2 * i, 2 * i + 1} && forall j {:trigger rs'[j]} :: j in rs && j / 2 != i ==>
      rs'[j] == rs[j]
    ensures ok ==> |rs'[2 * i]| > 0 && rs'[2 * i][0] == nu.slots[2 * i]
    ensures ok ==> |rs'[2 * i + 1]| > 0 && rs'[2 * i + 1][0] == nu.slots[2 * i + 1]
  {
    ghost var H, R, mem := Bit(h.n - h.k - 1), h.rings[i], h.mem;
    assert BucketOk(mem, R, 2 * H, i);
    var head1, tail1, head2, tail2; ghost var a, b;
    head1, tail1, head2, tail2, a, b := FindEnds(h, i, m1, nu.slots[2 * i], nu.slots[2 * i + 1]);
    ok := StoreEnds(h, i, head1, tail1, head2, tail2, a, b);
    rs' := rs;
    if ok {
      SplitStep(mem, h.rings, rs, H, i, a, b);
      SplitHeads(mem, h.rings, H, i, a, b);
      SplitData(m1, mem, R, a, b);
      rs' := SplitRings(h.rings, rs, i, a, b);
    }
  }

  lemma SplitHeads(mem: Mem<HashNode>, rings: Rings<HashNode>, H: nat, i: nat, a: nat, b: nat)
    requires H > 0 && i in rings && BucketOk(mem, rings[i], 2 * H, i) && a > 0 && b > 0
    requires FirstAt(KeysOf(mem, rings[i]), 2 * i * H, a) && FirstAt(KeysOf(mem, rings[i]), (2 * i + 1) * H, b)
    ensures |LowRing(rings[i], a, b)| > 0 && LowRing(rings[i], a, b)[0] == rings[i][a]
    ensures |HighRing(rings[i], a, b)| > 0 && HighRing(rings[i], a, b)[0] == rings[i][b]
  {
    SplitRing(mem, rings[i], H, i, a, b);
  }

  lemma SplitData(m1: Mem<HashNode>, mem: Mem<HashNode>, R: seq<HashNode>, a: nat, b: nat)
    requires m1.Keys == mem.Keys && SameData(m1, mem, m1.Keys) && 0 < a < |R| && 0 < b < |R| && R[a - 1] in mem &&
      R[b - 1] in mem
    ensures SplitMem(mem, R, a, b).Keys == m1.Keys && SameData(m1, SplitMem(mem, R, a, b), m1.Keys)
  {
    forall x {:trigger SameNode(m1, SplitMem(mem, R, a, b), x)} | x in m1
      ensures SameNode(m1, SplitMem(mem, R, a, b), x)
    {
      assert SameNode(m1, mem, x);
    }
  }

  // ---------------------------------------------------------------- the whole rehash

  /** HeadsAre, for the slots below 2 * c. */
  ghost predicate HeadsBelow(s: Slots, rs: Rings<HashNode>, c: nat) {
    && (forall j: nat {:trigger HeadAt(s, rs, j)} :: j < |s| && j < 2 * c ==> HeadAt(s, rs, j))
    && (forall j {:trigger j in rs} :: j in rs ==> j < |s|)
  }

  lemma HeadsSkip(s: Slots, r0: Rings<HashNode>, rs: Rings<HashNode>, c: nat, e: nat)
    requires SlotsDone(s, r0, e) && c !in r0 && HeadsBelow(s, rs, c) && forall j {:trigger j in rs} :: j in rs ==>
      j < 2 * c
    ensures HeadsBelow(s, rs, c + 1)
  {
    forall j: nat {:trigger HeadAt(s, rs, j)} | j < |s| && j < 2 * (c + 1) ensures HeadAt(s, rs, j) {
      if j >= 2 * c { assert j / 2 == c && s[j] == null; }
    }
  }

  lemma HeadsStep(s: Slots, rs: Rings<HashNode>, rs': Rings<HashNode>, c: nat)
    requires HeadsBelow(s, rs, c) && 2 * c + 1 < |s| && rs'.Keys == rs.Keys + {2 * c, 2 * c + 1}
    requires forall j {:trigger rs'[j]} :: j in rs && j / 2 != c ==> rs'[j] == rs[j]
    requires |rs'[2 * c]| > 0 && rs'[2 * c][0] == s[2 * c] && |rs'[2 * c + 1]| > 0 && rs'[2 * c + 1][0] == s[2 * c + 1]
    ensures HeadsBelow(s, rs', c + 1)
  {
    forall j: nat {:trigger HeadAt(s, rs', j)} | j < |s| && j < 2 * (c + 1) ensures HeadAt(s, rs', j) {
      if j < 2 * c { assert HeadAt(s, rs, j) && j / 2 < c; }
    }
  }

  /** While rings are split: m1 and r1 were the nodes and rings before. */
  ghost predicate Splitting(h: Table, s: Slots, m1: Mem<HashNode>, r1: Rings<HashNode>, rs: Rings<HashNode>, i: nat)
    reads h, h.slots, h.mem.Keys
  {
    && h.Coupled() && h.k < h.n && h.rings == r1 && m1.Keys == h.mem.Keys && SameData(m1, h.mem, m1.Keys)
    && SplitOk(h.mem, r1, rs, Bit(h.n - h.k - 1), i) && HeadsBelow(s, rs, i)
  }

  method SplitOne(h: Table, nu: Table, i: nat, ghost s: Slots, ghost m1: Mem<HashNode>, ghost r1: Rings<HashNode>,
                  ghost rs: Rings<HashNode>, ghost K: set<HashNode>) returns (ok: bool, ghost rs': Rings<HashNode>)
    requires Splitting(h, s, m1, r1, rs, i) && i in r1 && 2 * i + 1 < nu.slots.Length && nu.slots[..] == s
    requires Marks(m1, r1, s, Bit(h.n - h.k - 1), K) && s[2 * i] != null && s[2 * i + 1] != null
    modifies h`mem, h.counters, h.mem.Keys
    ensures ok <==> NoHalf(m1, r1[i], Bit(h.n - h.k - 1))
    ensures ok ==> Splitting(h, s, m1, r1, rs', i + 1)
  {
    ghost var H := Bit(h.n - h.k - 1);
    assert SlotMark(m1, r1, s, 2 * i, H, K) && SlotMark(m1, r1, s, 2 * i + 1, H, K);
    assert s[2 * i] == nu.slots[2 * i] && s[2 * i + 1] == nu.slots[2 * i + 1];
    ok, rs' := SplitBucket(h, nu, i, m1, K, rs);
    if ok { HeadsStep(s, rs, rs', i); }
  }

  /** No head has a key that is a multiple of H. */
  ghost predicate HeadsOff(mem: Mem<HashNode>, rings: Rings<HashNode>, H: nat)
    requires H > 0
  {
    forall i {:trigger NoHalf(mem, rings[i], H)} :: i in rings ==> NoHalf(mem, rings[i], H)
  }

  ghost predicate HalvesBelow(mem: Mem<HashNode>, rings: Rings<HashNode>, H: nat, i: nat)
    requires H > 0
  {
    forall l {:trigger NoHalf(mem, rings[l], H)} :: l in rings && l < i ==> NoHalf(mem, rings[l], H)
  }

  /** The split loop: it gets to the end exactly when no head has a key that is a multiple of H. */
  method Split(h: Table, nu: Table, ghost m0: Mem<HashNode>, ghost r0: Rings<HashNode>)
    returns (ok: bool, ghost rs: Rings<HashNode>)
    requires Initing(h, nu.slots[..], m0, r0) && SlotsDone(nu.slots[..], r0, h.slots.Length) &&
      nu.slots.Length == 2 * h.slots.Length
    modifies h`mem, h.counters, h.mem.Keys
    ensures ok <==> HeadsOff(m0, r0, Bit(h.n - h.k - 1))
    ensures ok ==> Splitting(h, nu.slots[..], old(h.mem), old(h.rings), rs, h.slots.Length)
  {
    ghost var H, m1, r1, s := Bit(h.n - h.k - 1), h.mem, h.rings, nu.slots[..];
    rs := map[];
    SplitStart(m1, r1, H);
    SameHalves(m0, r0, m1, r1, H);
    var i := 0;
    while i < h.slots.Length
      invariant i <= h.slots.Length && Splitting(h, s, m1, r1, rs, i)
      invariant HalvesBelow(m1, r1, H, i)
    {
      assert HeadAt(h.slots[..], h.rings, i);
      if h.slots[i] != null {
        ok, rs := SplitOne(h, nu, i, s, m1, r1, rs, m0.Keys);
        if !ok { return; }
        assert HalvesBelow(m1, r1, H, i + 1);
      } else {
        SplitSkip(h.mem, r1, rs, H, i);
        HeadsSkip(s, r0, rs, i, h.slots.Length);
      }
      i := i + 1;
    }
    ok := true;
  }

  lemma SplitStart(m1: Mem<HashNode>, rings: Rings<HashNode>, H: nat)
    requires H > 0 && TableOk(m1, rings, 2 * H)
    ensures SplitOk(m1, rings, map[], H, 0)
  {
  }

  lemma MarksNew(mem: Mem<HashNode>, rings: Rings<HashNode>, s: Slots, H: nat, K: set<HashNode>)
    requires Marks(mem, rings, s, H, K)
    ensures forall j {:trigger s[j]} :: 0 <= j < |s| && s[j] != null ==> s[j] !in K
  {
    forall j {:trigger s[j]} | 0 <= j < |s| && s[j] != null
      ensures s[j] !in K
    {
      assert SlotMark(mem, rings, s, j, H, K);
    }
  }

  lemma SameHalves(m0: Mem<HashNode>, r0: Rings<HashNode>, m1: Mem<HashNode>, r1: Rings<HashNode>, H: nat)
    requires H > 0 && SameHeads(r0, r1) && SameData(m0, m1, m0.Keys) && forall i {:trigger r0[i]} :: i in r0 ==>
      r0[i][0] in m0
    ensures forall i {:trigger NoHalf(m1, r1[i], H)} :: i in r0 ==> (NoHalf(m0, r0[i], H) <==> NoHalf(m1, r1[i], H))
    ensures forall i {:trigger NoHalf(m0, r0[i], H)} :: i in r0 ==> (NoHalf(m0, r0[i], H) <==> NoHalf(m1, r1[i], H))
  {
    forall i {:trigger r0[i]} | i in r0
      ensures NoHalf(m0, r0[i], H) <==> NoHalf(m1, r1[i], H)
    {
      assert SameNode(m0, m1, r0[i][0]);
    }
  }

  lemma DropStep(mem: Mem<HashNode>, R: seq<HashNode>, s: Slots, i: nat, K: set<HashNode>)
    requires |R| > 0 && R[|R| - 1] in mem && i < |s| && R[0] == s[i] && R[0] !in K && K <= mem.Keys
    requires AllKnown(mem, s[i..], K)
    ensures var m := Behead(mem, R); K <= m.Keys <= mem.Keys && SameData(mem, m, K)
    ensures AllKnown(Behead(mem, R), s[i + 1..], K)
  {
    forall x {:trigger Known(x, s[i + 1..], K)} | x in Behead(mem, R) ensures Known(x, s[i + 1..], K) {
      assert Known(x, s[i..], K) && s[i..] == [s[i]] + s[i + 1..];
    }
  }

  lemma DropSkip(mem: Mem<HashNode>, s: Slots, i: nat, K: set<HashNode>)
    requires i < |s| && s[i] == null
    requires AllKnown(mem, s[i..], K)
    ensures AllKnown(mem, s[i + 1..], K)
  {
    forall x {:trigger Known(x, s[i + 1..], K)} | x in mem ensures Known(x, s[i + 1..], K) {
      assert Known(x, s[i..], K) && s[i..] == [s[i]] + s[i + 1..];
    }
  }

  /** No head of the table has counted a request or is being shifted. */
  ghost predicate AllQuiet(h: Table)
    reads h.counters, h.active
  {
    && (forall j {:trigger h.counters[j]} :: 0 <= j < h.counters.Length ==> h.counters[j] == 0)
    && (forall j {:trigger h.active[j]} :: 0 <= j < h.active.Length ==> !h.active[j])
  }

  /** The deletion loop: every milestone goes, and the nodes that were stored stay. */
  method DropMilestones(nu: Table, ghost K: set<HashNode>, ghost s: Slots)
    requires nu.Coupled() && TableOk(nu.mem, nu.rings, nu.T()) && nu.slots[..] == s && K <= nu.mem.Keys
    requires forall j {:trigger s[j]} :: 0 <= j < |s| && s[j] != null ==> s[j] !in K
    requires AllKnown(nu.mem, s, K)
    modifies nu, nu.slots, nu.counters, nu.active, nu.mem.Keys
    ensures nu.Coupled() && TableOk(nu.mem, nu.rings, nu.T())
    ensures nu.mem.Keys == K && SameData(old(nu.mem), nu.mem, K)
    ensures old(AllQuiet(nu)) ==> AllQuiet(nu)
  {
    ghost var mem0 := nu.mem;
    assert s[0..] == s;
    var i := 0;
    while i < nu.slots.Length
      invariant i <= nu.slots.Length == |s| && nu.Coupled() && TableOk(nu.mem, nu.rings, nu.T())
      invariant K <= nu.mem.Keys <= mem0.Keys && SameData(mem0, nu.mem, K)
      invariant forall j {:trigger nu.slots[j]} :: i <= j < |s| ==> nu.slots[j] == s[j]
      invariant AllKnown(nu.mem, s[i..], K) && (old(AllQuiet(nu)) ==> AllQuiet(nu))
    {
      if nu.slots[i] != null {
        ghost var mem := nu.mem;
        DropOne(nu, i, K, s);
        SameDataTrans(mem0, mem, nu.mem, K, K);
      } else {
        DropSkip(nu.mem, s, i, K);
      }
      i := i + 1;
    }
    assert forall x :: x in nu.mem ==> x in K by {
      forall x | x in nu.mem ensures x in K { assert Known(x, s[i..], K); }
    }
  }

  method DropOne(nu: Table, i: nat, ghost K: set<HashNode>, ghost s: Slots)
    requires nu.Coupled() && TableOk(nu.mem, nu.rings, nu.T()) && i < nu.slots.Length == |s| && nu.slots[i] != null
    requires nu.slots[i] == s[i] && s[i] !in K && K <= nu.mem.Keys
    requires AllKnown(nu.mem, s[i..], K)
    modifies nu, nu.slots, nu.counters, nu.active, nu.mem.Keys
    ensures nu.Coupled() && TableOk(nu.mem, nu.rings, nu.T())
    ensures K <= nu.mem.Keys <= old(nu.mem).Keys && SameData(old(nu.mem), nu.mem, K)
    ensures forall j {:trigger nu.slots[j]} :: 0 <= j < |s| && j != i ==> nu.slots[j] == old(nu.slots[j])
    ensures AllKnown(nu.mem, s[i + 1..], K) && (old(AllQuiet(nu)) ==> AllQuiet(nu))
  {
    assert HeadAt(nu.slots[..], nu.rings, i) && BucketOk(nu.mem, nu.rings[i], nu.T(), i);
    ghost var mem, R := nu.mem, nu.rings[i];
    ghost var s0 := nu.slots[..];
    nu.DeleteHead(i);
    assert forall j {:trigger nu.slots[j]} :: 0 <= j < |s| && j != i ==> nu.slots[j] == nu.slots[..][j] == s0[j];
    DropStep(mem, R, s, i, K);
  }

  /** The new table has the nodes now, in the rings at its slots. */
  ghost method Adopt(h: Table, nu: Table, s: Slots, m1: Mem<HashNode>, r1: Rings<HashNode>, rs: Rings<HashNode>)
    requires Splitting(h, s, m1, r1, rs, h.slots.Length) && h.n == nu.n && nu.k == h.k + 1 && nu.slots[..] == s
    requires nu.slots.Length == nu.counters.Length == nu.active.Length == 2 * h.slots.Length == Bit(nu.k) && nu != h
    modifies nu`mem, nu`rings
    ensures nu.Coupled() && TableOk(nu.mem, nu.rings, nu.T()) && nu.mem == h.mem
  {
    SplitDone(h.mem, r1, rs, Bit(h.n - h.k - 1), h.slots.Length);
    nu.mem, nu.rings := h.mem, rs;
  }

  /** hotring_rehash, from a table in order, with keys whose bucket starts fit an int: it comes through exactly when no
      head has a key that is a multiple of the new bucket size. Then the new table is in order, and holds exactly the
      nodes of the old one, with their keys and values. */
  method Rehash(h: Table) returns (ok: bool, nu: Table)
    requires h.Ok() && 2 <= h.k < h.n && h.n == NBITS && h.k < 30
    requires forall x {:trigger h.mem[x]} :: x in h.mem ==> h.mem[x].key < Bit(31)
    modifies h, h.slots, h.counters, h.active, h.mem.Keys
    ensures ok <==> HeadsOff(old(h.mem), old(h.rings), Bit(h.n - h.k - 1))
    ensures fresh(nu) && fresh(nu.slots) && fresh(nu.counters) && fresh(nu.active) && nu.n == NBITS && nu.k == h.k + 1
    ensures ok ==> nu.Coupled() && TableOk(nu.mem, nu.rings, nu.T())
    ensures ok ==> nu.mem.Keys == old(h.mem).Keys && SameData(old(h.mem), nu.mem, nu.mem.Keys)
    ensures AllQuiet(nu)
  {
    ghost var m0, r0 := h.mem, h.rings;
    nu := RehashInit(h);
    ghost var m1, r1, s := h.mem, h.rings, nu.slots[..];
    ghost var rs;
    ok, rs := Split(h, nu, m0, r0);
    if !ok { return; }
    ghost var m2 := h.mem;
    Adopt(h, nu, s, m1, r1, rs);
    MarksNew(m1, r1, s, Bit(h.n - h.k - 1), m0.Keys);
    DropMilestones(nu, m0.Keys, s);
    SameDataTrans(m0, m1, m2, m0.Keys, m1.Keys);
    SameDataTrans(m0, m2, nu.mem, m0.Keys, m0.Keys);
  }

  /** A table for 32-bit keys with key 0 alone. */
  method KeyZero() returns (h: Table)
    ensures fresh(h) && fresh(h.slots) && fresh(h.counters) && fresh(h.active) && fresh(h.mem.Keys)
    ensures h.Ok() && h.n == NBITS && h.k == 3 && 0 in h.rings && |h.rings[0]| > 0 && KeyOf(h.mem, h.rings[0][0]) == 0
    ensures forall x :: x in h.mem ==> h.mem[x].key == 0
  {
    h := new Table(NBITS, 3);
    BucketBounds(0, h.T(), 0);
    var err;
    ghost var x, j;
    err, x, j := h.HashInsert(0, 5);
  }

  /** The least example: a table that holds key 0 alone cannot be rehashed. */
  method FaultsOnKeyZero() returns (ok: bool)
    ensures !ok
  {
    var h := KeyZero();
    var nu;
    ghost var mem, rings, H := h.mem, h.rings, Bit(h.n - h.k - 1);
    assert !NoHalf(mem, rings[0], H);
    assert !HeadsOff(mem, rings, H);
    ok, nu := Rehash(h);
  }

  /** The head's key is not the first of a half of its bucket. */
  ghost predicate NoHalf(mem: Mem<HashNode>, R: seq<HashNode>, H: nat)
    requires H > 0
  {
    |R| > 0 && KeyOf(mem, R[0]) % H != 0
  }

  // ---------------------------------------------------------------- what the rehash means

  /** What Get decides: is there a node with this key on the ring of its bucket? */
  ghost predicate Held(mem: Mem<HashNode>, rings: Rings<HashNode>, T: nat, key: nat)
    requires T > 0
  {
    Bucket(key, T) in rings && key in KeysOf(mem, rings[Bucket(key, T)])
  }

  lemma HeldMeans(mem: Mem<HashNode>, rings: Rings<HashNode>, T: nat, key: nat)
    requires T > 0 && TableOk(mem, rings, T)
    ensures Held(mem, rings, T, key) <==> exists x :: x in mem && mem[x].key == key
  {
    var i := Bucket(key, T);
    if x :| x in mem && mem[x].key == key {
      assert OnRing(mem, rings, T, x);
      var a :| 0 <= a < |rings[i]| && rings[i][a] == x;
      assert KeysOf(mem, rings[i])[a] == key;
    }
    if Held(mem, rings, T, key) {
      assert BucketOk(mem, rings[i], T, i);
      var a :| 0 <= a < |rings[i]| && KeysOf(mem, rings[i])[a] == key;
      assert rings[i][a] in mem;
    }
  }

  /** After a rehash every lookup decides as before, and finds the same node when keys are distinct. */
  lemma SameAnswers(m0: Mem<HashNode>, r0: Rings<HashNode>, m: Mem<HashNode>, r: Rings<HashNode>, T: nat, T': nat,
          key: nat)
    requires T > 0 && T' > 0 && TableOk(m0, r0, T) && TableOk(m, r, T') && m.Keys == m0.Keys && SameData(m0, m, m.Keys)
    ensures Held(m0, r0, T, key) <==> Held(m, r, T', key)
    ensures (forall x, y {:trigger m0[x], m0[y]} :: x in m0 && y in m0 && m0[x].key == m0[y].key ==> x == y) ==>
      forall a: nat, b: nat {:trigger r0[Bucket(key, T)][a], r[Bucket(key, T')][b]} ::
        Held(m0, r0, T, key) && FirstAt(KeysOf(m0, r0[Bucket(key, T)]), key, a) && Held(m, r, T', key) &&
          FirstAt(KeysOf(m, r[Bucket(key, T')]), key, b)
        ==> r0[Bucket(key, T)][a] == r[Bucket(key, T')][b]
  {
    HeldMeans(m0, r0, T, key);
    HeldMeans(m, r, T', key);
    assert forall x :: x in m0 ==> SameNode(m0, m, x);
    if Held(m0, r0, T, key) && Held(m, r, T', key) {
      assert BucketOk(m0, r0[Bucket(key, T)], T, Bucket(key, T)) &&
        BucketOk(m, r[Bucket(key, T')], T', Bucket(key, T'));
      forall a: nat, b: nat {:trigger r0[Bucket(key, T)][a], r[Bucket(key, T')][b]}
        | FirstAt(KeysOf(m0, r0[Bucket(key, T)]), key, a) && FirstAt(KeysOf(m, r[Bucket(key, T')]), key, b)
        ensures m0[r0[Bucket(key, T)][a]].key == key && m0[r[Bucket(key, T')][b]].key == key
      {
        assert r0[Bucket(key, T)][a] in m0 && r[Bucket(key, T')][b] in m;
        assert SameNode(m0, m, r[Bucket(key, T')][b]);
      }
    }
  }

  /** The rings of the new table are the halves of the old ones: ring j has the nodes of ring j / 2 whose keys are in
      the j-th block of H keys. */
  lemma RingsAreHalves(m0: Mem<HashNode>, r0: Rings<HashNode>, m: Mem<HashNode>, r: Rings<HashNode>, H: nat, j: nat,
          x: HashNode)
    requires H > 0 && TableOk(m0, r0, 2 * H) && TableOk(m, r, H) && m.Keys == m0.Keys && SameData(m0, m, m.Keys)
    ensures j in r && x in r[j] <==> j / 2 in r0 && x in r0[j / 2] && x in m0 && Bucket(m0[x].key, H) == j
  {
    if x in m0 {
      assert SameNode(m0, m, x) && OnRing(m0, r0, 2 * H, x) && OnRing(m, r, H, x);
      BucketHalves(m0[x].key, H);
    }
    if j in r && x in r[j] {
      assert BucketOk(m, r[j], H, j);
      var a :| 0 <= a < |r[j]| && r[j][a] == x;
    }
    if j / 2 in r0 && x in r0[j / 2] { assert BucketOk(m0, r0[j / 2], 2 * H, j / 2); }
  }

  lemma BitLess(a: nat, b: nat)
    requires a < b
    ensures 2 * Bit(a) <= Bit(b)
  {
    BitSum(a, b - a);
    Words.MulMono(2, Bit(b - a), Bit(a));
  }

  /** The least key whose blocks in two sizes differ. */
  lemma BlocksDiffer(a: nat, b: nat)
    requires a < b
    ensures Bit(a) < Bit(b) && Bucket(Bit(a), Bit(a)) == 1 && Bucket(Bit(a), Bit(b)) == 0
  {
    BitLess(a, b);
    BucketBounds(Bit(a), Bit(a), 1);
    BucketBounds(Bit(a), Bit(b), 0);
  }

  /** The new table looks for keys of NBITS bits. Made from a table for n bits, it looks for every key in the slot that
      got its ring if and only if n is NBITS; otherwise it misses the least key whose blocks in the two sizes differ. */
  lemma NbitsNeeded(n: nat, k: nat)
    requires k < n && k < NBITS
    ensures n == NBITS <==> forall key: nat {:trigger Bucket(key, Bit(n - k - 1))} ::
      key < Bit(n) ==> Bucket(key, Bit(NBITS - (k + 1))) == Bucket(key, Bit(n - k - 1))
  {
    if n != NBITS {
      var key := if n < NBITS then Bit(n - k - 1) else Bit(NBITS - (k + 1));
      BitLess(n - k - 1, n);
      if n < NBITS { BlocksDiffer(n - k - 1, NBITS - (k + 1)); } else { BlocksDiffer(NBITS - (k + 1), n - k - 1); }
      assert key < Bit(n) && Bucket(key, Bit(NBITS - (k + 1))) != Bucket(key, Bit(n - k - 1));
    }
  }
}
