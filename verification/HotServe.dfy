/** hash_get: a request, which every so often moves the head of its bucket and may replace the table. */
module HotServe {
  import opened RingOrder
  import opened RingHeap
  import opened HotRing
  import opened HotDelete
  import opened HotRehash
  import opened HotShift

  /** How many requests have to come before a shift. */
  const SHIFT_PERIOD: nat := 5

  /** nr_request */
  class Requests {
    var count: nat

    constructor ()
      ensures count == 0
    {
      count := 0;
    }
  }

  /** The counters of a ring after a request that found node x. */
  ghost function Hits(R: seq<HashNode>, c: seq<NodeCount>, x: HashNode?): (d: seq<NodeCount>)
    requires |c| == |R|
  {
    seq(|R|, l requires 0 <= l < |R| => if R[l] == x then NodeHit(c[l]) else c[l])
  }

  /** A head that moves to position t, with more work there than 5 steps for each of `total` requests, asks for a
      rehash. */
  ghost predicate AsksRehash(c: seq<nat>, total: nat, t: nat) { t != 0 && Work(c, t) > INCOME_THRESHOLD * total }

  /** The rehash that the shift of bucket i to position t asks for does not come, or comes through. */
  ghost predicate Rehashable(mem: Mem<HashNode>, rings: Rings<HashNode>, i: nat, c: seq<nat>, total: nat, t: nat,
          H: nat)
    requires i in rings && |c| == |rings[i]| && H > 0
  {
    Hottest(c, t) && AsksRehash(c, total, t) ==> HeadsOff(mem, rings[i := Turn(rings[i], t)], H)
  }

  /** A shift of bucket i, whose nodes have counted c and whose head has counted `total`, goes well: its search finds a
      place, and a rehash that may follow finds no head whose key is a multiple of H. */
  ghost predicate Survives(mem: Mem<HashNode>, rings: Rings<HashNode>, i: nat, c: seq<nat>, total: nat, H: nat)
    requires i in rings && |c| == |rings[i]| && H > 0
  {
    && !Fails(c, total)
    && forall t: nat {:trigger Rehashable(mem, rings, i, c, total, t, H)} :: Rehashable(mem, rings, i, c, total, t, H)
  }

  /** A table is in order, and holds the nodes of `mem` with their data. */
  ghost predicate Holds(h: Table, mem: Mem<HashNode>)
    reads h, h.slots, h.mem.Keys
  {
    && h.Coupled() && TableOk(h.mem, h.rings, h.T())
    && h.mem.Keys == mem.Keys && SameData(mem, h.mem, h.mem.Keys)
  }

  /** A table that has not been rehashed, whose rehash keeps within an int. */
  ghost predicate Ready(h: Table)
    reads h, h.slots, h.mem.Keys
  {
    && h.Ok() && 2 <= h.k < h.n && h.n == NBITS && h.k < 30
    && forall x {:trigger h.mem[x]} :: x in h.mem ==> h.mem[x].key < Bit(31)
  }

  lemma SurvivesIs(mem: Mem<HashNode>, rings: Rings<HashNode>, i: nat, c: seq<nat>, total: nat, t: nat, H: nat)
    requires i in rings && |c| == |rings[i]| && H > 0 && !Fails(c, total) && Hottest(c, t)
    ensures Survives(mem, rings, i, c, total, H) <==> Rehashable(mem, rings, i, c, total, t, H)
  {
    if Rehashable(mem, rings, i, c, total, t, H) {
      forall u: nat {:trigger Rehashable(mem, rings, i, c, total, u, H)}
        ensures Rehashable(mem, rings, i, c, total, u, H)
      {
        if Hottest(c, u) { OneHottest(c, t, u); }
      }
    }
  }

  /** What a shift of bucket i that goes well leaves: the head at the first position of least work and all counts of the
      bucket at 0, in the same table, or a table of twice the size. */
  ghost predicate Shifted(h: Table, nu: Table, rings: Rings<HashNode>, i: nat, c: seq<nat>, total: nat, t: nat)
    requires i in rings && |c| == |rings[i]|
    reads h, h.slots, h.counters, h.active, h.mem.Keys, rings[i]
  {
    && Hottest(c, t) && (nu == h <==> !AsksRehash(c, total, t)) && (nu != h ==> nu.k == h.k + 1)
    && (nu == h ==>
        && Ready(h) && h.rings == rings[i := Turn(rings[i], t)]
        && i < h.counters.Length == h.active.Length && h.counters[i] == 0 && !h.active[i]
        && forall x {:trigger x.counter} :: x in rings[i] ==> x.counter == 0)
  }

  /** hotspot_shift, with the rehash it may lead to, which faults at a head that has been lost. */
  method HotspotShift(h: Table, i: nat) returns (nu: Table, ok: bool, ghost t: nat)
    requires Ready(h) && i in h.rings && |h.rings[i]| <= MAX_NODES
    modifies h, h.slots, h.counters, h.active, h.mem.Keys
    ensures i < h.counters.Length
    ensures ok <==> Survives(old(h.mem), old(h.rings), i, old(Counters(h.rings[i])), old(h.counters[i]),
              Bit(h.n - h.k - 1))
    ensures ok ==> nu.n == h.n && Holds(nu, old(h.mem))
    ensures ok ==> Shifted(h, nu, old(h.rings), i, old(Counters(h.rings[i])), old(h.counters[i]), t)
    ensures ok && nu == h ==> h.mem == old(h.mem) && h.counters[..] == old(h.counters[..])[i := 0]
    ensures ok && nu != h ==> fresh(nu) && fresh(nu.slots) && fresh(nu.counters) && fresh(nu.active)
  {
    ghost var mem, rings, H := h.mem, h.rings, Bit(h.n - h.k - 1);
    ghost var c: seq<NodeCount>, total: nat := Counters(rings[i]), 0;
    assert BucketOk(mem, rings[i], h.T(), i) && HeadAt(h.slots[..], rings, i);
    total := h.counters[i];
    var res, lost;
    res, lost, t := Shift(h, i);
    nu, ok := h, !lost;
    if lost { return; }
    SurvivesIs(mem, rings, i, c, total, t, H);
    if res == ShiftRehash {
      ok, nu := Rehash(h);
    }
  }

  /** A key is found exactly when it is stored; the node is the first with this key on the ring of its bucket, and prev
      the one before it, but null for the head. */
  ghost predicate Answered(mem: Mem<HashNode>, rings: Rings<HashNode>, T: nat, key: nat, found: bool, node: HashNode?,
          prev: HashNode?, at: nat)
    requires T > 0
  {
    && (found <==> Held(mem, rings, T, key))
    && (!found ==> node == prev == null)
    && (found ==>
        && FirstAt(KeysOf(mem, rings[Bucket(key, T)]), key, at) && node == rings[Bucket(key, T)][at]
        && prev == if at == 0 then null else rings[Bucket(key, T)][at - 1])
  }

  /** The counter of a head after a request to its bucket; an empty bucket has no head to count at. */
  function Asked(head: bool, c: HeadCount): HeadCount { if head then HeadHit(c) else c }

  /** __hash_get in a table in order, with what it does to the counters of the bucket. */
  method Ask(h: Table, key: nat)
    returns (res: GetResult, node: HashNode?, prev: HashNode?, ghost at: nat, ghost c: seq<NodeCount>)
    requires Ready(h) && key < Bit(h.n)
    modifies h.counters, h.mem.Keys`counter
    ensures Ready(h) && Bucket(key, h.T()) < h.counters.Length
    ensures Answered(h.mem, h.rings, h.T(), key, res != NotFound, node, prev, at)
    ensures res == AccessCold <==> res != NotFound && at > 0
    ensures var i := Bucket(key, h.T());
      && h.counters[i] == Asked(i in h.rings, old(h.counters[i]))
      && (forall j {:trigger h.counters[j]} :: 0 <= j < h.counters.Length && j != i ==>
          h.counters[j] == old(h.counters[j]))
      && (i in h.rings ==> c == Counters(h.rings[i]) == Hits(h.rings[i], old(Counters(h.rings[i])), node))
  {
    var i := Bucket(key, h.T());
    HashCodeSplits(key, h.n, h.k);
    assert i in h.rings ==> BucketOk(h.mem, h.rings[i], h.T(), i);
    res, node, prev, at := h.Get(key);
    c := if i in h.rings then Counters(h.rings[i]) else [];
  }

  /** A request that found its key behind the head calls for a shift once enough requests have come. */
  predicate Due(found: bool, at: nat, count: nat) { found && at > 0 && count + 1 >= SHIFT_PERIOD }

  /** The switch of hash_get. */
  method ShiftIfDue(r: Requests, h: Table, i: nat, res: GetResult, ghost c: seq<NodeCount>)
    returns (nu: Table, ok: bool, ghost t: nat)
    requires Ready(h) && i < h.counters.Length && (res == AccessCold ==> i in h.rings && |h.rings[i]| <= MAX_NODES)
    requires i in h.rings ==> c == Counters(h.rings[i])
    modifies r, h, h.slots, h.counters, h.active, h.mem.Keys
    ensures ok ==> nu.n == h.n && Holds(nu, old(h.mem)) && (nu == h ==> Ready(h) && h.mem == old(h.mem))
    ensures ok && nu != h ==> fresh(nu) && fresh(nu.slots) && fresh(nu.counters) && fresh(nu.active)
    ensures ok && nu == h ==> forall j {:trigger h.counters[j]} :: 0 <= j < h.counters.Length && j != i ==>
      h.counters[j] == old(h.counters[j])
    ensures if res == AccessCold && old(r.count) >= SHIFT_PERIOD then
              && (ok <==> Survives(old(h.mem), old(h.rings), i, c, old(h.counters[i]), Bit(h.n - h.k - 1)))
              && (ok ==> r.count == 0 && Shifted(h, nu, old(h.rings), i, c, old(h.counters[i]), t))
            else
              && ok && nu == h && h.rings == old(h.rings) && r.count == old(r.count)
              && h.counters[i] == old(h.counters[i]) && (i in h.rings ==> Counters(h.rings[i]) == c)
  {
    nu, ok, t := h, true, 0;
    assert Holds(h, h.mem);
    if res == AccessCold && r.count >= SHIFT_PERIOD {
      nu, ok, t := HotspotShift(h, i);
      r.count := 0;
    }
  }

  /** hash_get: whether the key is stored. Unless its shift faults, the table it leaves holds the same nodes with the
      same data, in order. `c` are the counters of the bucket once the request is counted, and `t` is where the head
      goes. */
  method HashGet(r: Requests, h: Table, key: nat)
    returns (found: bool, node: HashNode?, prev: HashNode?, nu: Table, ok: bool, ghost at: nat,
             ghost c: seq<NodeCount>, ghost t: nat)
    requires Ready(h) && key < Bit(h.n)
    requires Bucket(key, h.T()) in h.rings ==> |h.rings[Bucket(key, h.T())]| <= MAX_NODES
    modifies r, h, h.slots, h.counters, h.active, h.mem.Keys
    ensures Bucket(key, h.T()) < h.counters.Length
    ensures Answered(old(h.mem), old(h.rings), h.T(), key, found, node, prev, at)
    ensures Bucket(key, h.T()) in old(h.rings) ==>
      c == Hits(old(h.rings)[Bucket(key, h.T())], old(Counters(h.rings[Bucket(key, h.T())])), node)
    ensures ok ==> nu.n == h.n && Holds(nu, old(h.mem)) && (nu == h ==> Ready(h) && h.mem == old(h.mem))
    ensures ok && nu != h ==> fresh(nu) && fresh(nu.slots) && fresh(nu.counters) && fresh(nu.active)
    ensures ok && nu == h ==>
      forall j {:trigger h.counters[j]} :: 0 <= j < h.counters.Length && j != Bucket(key, h.T()) ==>
        h.counters[j] == old(h.counters[j])
    ensures Due(found, at, old(r.count)) ==>
      (ok <==> Survives(old(h.mem), old(h.rings), Bucket(key, h.T()), c,
                 Asked(true, old(h.counters[Bucket(key, h.T())])), Bit(h.n - h.k - 1)))
    ensures Due(found, at, old(r.count)) && ok ==>
      && r.count == 0
      && Shifted(h, nu, old(h.rings), Bucket(key, h.T()), c, Asked(true, old(h.counters[Bucket(key, h.T())])), t)
    ensures !Due(found, at, old(r.count)) ==>
      && ok && nu == h && h.rings == old(h.rings) && r.count == old(r.count) + 1
      && h.counters[Bucket(key, h.T())] ==
         Asked(Bucket(key, h.T()) in h.rings, old(h.counters[Bucket(key, h.T())]))
      && (Bucket(key, h.T()) in h.rings ==> Counters(h.rings[Bucket(key, h.T())]) == c)
  {
    var i := Bucket(key, h.T());
    ghost var R: seq<HashNode> := if i in h.rings then h.rings[i] else [];
    ghost var c0 := Counters(R);
    r.count := r.count + 1;
    assert Counters(R) == c0;
    var res;
    res, node, prev, at, c := Ask(h, key);
    found := res != NotFound;
    nu, ok, t := ShiftIfDue(r, h, i, res, c);
  }

  /** Every ring fits on the stack of a shift. */
  ghost predicate RingsFit(rings: Rings<HashNode>) {
    forall i {:trigger rings[i]} :: i in rings ==> |rings[i]| <= MAX_NODES
  }

  /** Requests that shift come at least five after the last that did; the first ones after `first` requests without. */
  ghost predicate Spaced(shifts: seq<bool>, first: nat) {
    && (forall j: nat {:trigger shifts[j]} :: j < |shifts| && shifts[j] ==> j + first + 1 >= SHIFT_PERIOD)
    && forall j: nat, l: nat {:trigger shifts[j], shifts[l]} :: j < l < |shifts| && shifts[j] && shifts[l] ==>
      l - j >= SHIFT_PERIOD
  }

  /** The counter is no higher than the number of requests since the last shift. */
  ghost predicate Since(shifts: seq<bool>, first: nat, count: nat) {
    && count <= first + |shifts|
    && forall j: nat {:trigger shifts[j]} :: j < |shifts| && shifts[j] ==> count + j < |shifts|
  }

  lemma SpacedStep(shifts: seq<bool>, first: nat, count: nat, due: bool)
    requires Spaced(shifts, first) && Since(shifts, first, count) && (due ==> count + 1 >= SHIFT_PERIOD)
    ensures Spaced(shifts + [due], first) && Since(shifts + [due], first, if due then 0 else count + 1)
  {
  }

  /** One request of a run. */
  method ServeOne(r: Requests, h: Table, key: nat) returns (nu: Table, ok: bool, ghost due: bool)
    requires Ready(h) && RingsFit(h.rings) && key < Bit(h.n)
    modifies r, h, h.slots, h.counters, h.active, h.mem.Keys
    ensures ok ==> nu.n == h.n && Holds(nu, old(h.mem))
    ensures ok && nu == h ==> Ready(h) && RingsFit(h.rings) && h.mem == old(h.mem)
    ensures due ==> old(r.count) + 1 >= SHIFT_PERIOD
    ensures ok ==> r.count == if due then 0 else old(r.count) + 1
    ensures !due ==> ok && nu == h && h.rings == old(h.rings)
  {
    var found, node, prev;
    ghost var at, c, t, count := 0, [], 0, r.count;
    found, node, prev, nu, ok, at, c, t := HashGet(r, h, key);
    due := Due(found, at, count);
  }

  /** Requests one after the other, until one faults or replaces the table: n of them are served, and `shifts` says
      which shifted. Between two that do there are four at least that do not. */
  method Serve(r: Requests, h: Table, keys: seq<nat>) returns (nu: Table, ok: bool, n: nat, ghost shifts: seq<bool>)
    requires Ready(h) && RingsFit(h.rings) && forall j :: 0 <= j < |keys| ==> keys[j] < Bit(h.n)
    modifies r, h, h.slots, h.counters, h.active, h.mem.Keys
    ensures n == |shifts| <= |keys| && (ok && nu == h ==> n == |keys|)
    ensures ok ==> nu.n == h.n && Holds(nu, old(h.mem))
    ensures Spaced(shifts, old(r.count))
  {
    nu, ok, n, shifts := h, true, 0, [];
    ghost var due;
    assert Holds(h, h.mem);
    while n < |keys|
      invariant n == |shifts| <= |keys| && ok && nu == h
      invariant Ready(h) && RingsFit(h.rings) && h.mem == old(h.mem) && Holds(h, h.mem)
      invariant Spaced(shifts, old(r.count)) && Since(shifts, old(r.count), r.count)
    {
      ghost var count := r.count;
      nu, ok, due := ServeOne(r, h, keys[n]);
      SpacedStep(shifts, old(r.count), count, due);
      shifts, n := shifts + [due], n + 1;
      if !ok || nu != h { return; }
    }
  }

  /** Bucket 0 has key 1 at its head. */
  ghost predicate OneAtHead(h: Table)
    reads h, h.slots, h.mem.Keys
  {
    && Ready(h) && 1 < Bit(h.n) && Bucket(1, h.T()) == 0 && 0 < h.counters.Length
    && 0 in h.rings && 0 < |h.rings[0]| <= MAX_NODES && KeysOf(h.mem, h.rings[0])[0] == 1
  }

  /** A request for the head's key only counts. */
  method AskHeadOnce(r: Requests, h: Table)
    requires OneAtHead(h)
    modifies r, h, h.slots, h.counters, h.active, h.mem.Keys
    ensures OneAtHead(h) && h.mem == old(h.mem) && h.rings == old(h.rings)
    ensures h.counters[0] == HeadHit(old(h.counters[0])) && r.count == old(r.count) + 1
    ensures h.rings[0][0].counter == NodeHit(old(h.rings[0][0].counter))
  {
    var found, node, prev, nu, ok;
    ghost var at, c, t;
    found, node, prev, nu, ok, at, c, t := HashGet(r, h, 1);
    assert KeysOf(old(h.mem), old(h.rings)[0])[0] == 1 && Counters(h.rings[0])[0] == c[0];
  }

  /** m such requests count m, in 15 bits at the head and in 14 in its node. */
  method AskHead(r: Requests, h: Table, m: nat)
    requires OneAtHead(h)
    modifies r, h, h.slots, h.counters, h.active, h.mem.Keys
    ensures OneAtHead(h) && h.mem == old(h.mem) && h.rings == old(h.rings)
    ensures h.counters[0] == (old(h.counters[0]) + m) % 0x8000 && r.count == old(r.count) + m
    ensures h.rings[0][0].counter == (old(h.rings[0][0].counter) + m) % 0x4000
  {
    var i := 0;
    while i < m
      invariant i <= m && OneAtHead(h) && h.mem == old(h.mem) && h.rings == old(h.rings)
      invariant h.counters[0] == HeadHits(old(h.counters[0]), i) && r.count == old(r.count) + i
      invariant h.rings[0][0].counter == NodeHits(old(h.rings[0][0].counter), i)
    {
      AskHeadOnce(r, h);
      i := i + 1;
    }
    HeadWraps(old(h.counters[0]), m);
    NodeWraps(old(h.rings[0][0].counter), m);
  }

  /** The keys 1 and 2 in one bucket, and 32767 requests for key 1, which is at its head. */
  method AskedForOne() returns (r: Requests, h: Table)
    ensures fresh(r) && fresh(h) && fresh(h.slots) && fresh(h.counters) && fresh(h.active) && fresh(h.mem.Keys)
    ensures Ready(h) && 2 < Bit(h.n) && Bucket(2, h.T()) == 0
    ensures 0 in h.rings && |h.rings[0]| <= MAX_NODES && KeysOf(h.mem, h.rings[0]) == [1, 2]
    ensures 0 < h.counters.Length && h.counters[0] == 0x7fff && r.count == 0x7fff
  {
    h := Neighbours();
    r := new Requests();
    BitSum(29, 2);
    AskHead(r, h, 0x7fff);
  }

  /** An input that fails: 32767 requests for the head's key, and one for another key of the bucket. The 15 bits of the
      head's counter wrap to 0, the search divides by it, and the head is lost. */
  method WrapsToZero() returns (ok: bool)
    ensures !ok
  {
    var r, h := AskedForOne();
    ghost var mem, rings := h.mem, h.rings;
    var found, node, prev, nu;
    ghost var at, c, t;
    found, node, prev, nu, ok, at, c, t := HashGet(r, h, 2);
    assert KeysOf(mem, rings[0])[1] == 2;
  }
}
