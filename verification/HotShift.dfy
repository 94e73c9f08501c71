/** hotspot_shift: the head of a bucket moves to the node whose place costs the requests least, in exact arithmetic. */
module HotShift {
  import opened RingOrder
  import opened RingHeap
  import opened RingSplit
  import opened HotRing
  import Words

  const INCOME_THRESHOLD: nat := 5
  /** The start value of min_income. */
  const SENTINEL: nat := 1000000000
  /** The room for counters on the stack. */
  const MAX_NODES: nat := 100000

  datatype ShiftResult = ShiftRehash | ShiftSuccess

  // ---------------------------------------------------------------- income

  /** The % of C, which truncates. */
  function CMod(a: int, n: nat): int
    requires n > 0
  {
    if a >= 0 then a % n else -((-a) % n)
  }

  /** Distances on a ring of n nodes are below n, so the % changes nothing. */
  lemma CModIdle(a: int, n: nat)
    requires a < n && 0 < n + a
    ensures CMod(a, n) == a
  {
    if a < 0 { SmallMod(-a, n); } else { SmallMod(a, n); }
  }

  function Abs(a: int): nat { if a >= 0 then a else -a }

  /** The work of the requests that went to the first i positions, if the head stood at position t: each takes as many
      steps as its position is away. */
  ghost function WorkUpTo(c: seq<nat>, t: nat, i: nat): nat
    requires i <= |c|
  {
    if i == 0 then 0 else WorkUpTo(c, t, i - 1) + c[i - 1] * Abs(i - 1 - t)
  }

  ghost function Work(c: seq<nat>, t: nat): nat { WorkUpTo(c, t, |c|) }

  /** t is the first position of least work. */
  ghost predicate Hottest(c: seq<nat>, t: nat) {
    && t < |c|
    && (forall u: nat {:trigger Work(c, u)} :: u < |c| ==> Work(c, t) <= Work(c, u))
    && (forall u: nat {:trigger Work(c, u)} :: u < t ==> Work(c, t) < Work(c, u))
  }

  /** No work comes to less than 10^9 for each of `total` requests, and the head's does not come to exactly that. */
  ghost predicate Hopeless(c: seq<nat>, total: nat) {
    && Work(c, 0) != SENTINEL * total
    && forall u: nat {:trigger Work(c, u)} :: u < |c| ==> Work(c, u) >= SENTINEL * total
  }

  /** The head has counted 0 requests, as it has after a multiple of 2^15, or no income is low enough. */
  ghost predicate Fails(c: seq<nat>, total: nat) { total == 0 || Hopeless(c, total) }

  /** There is only one first position of least work. */
  lemma OneHottest(c: seq<nat>, t: nat, u: nat)
    requires Hottest(c, t) && Hottest(c, u)
    ensures t == u
  {
    assert Work(c, t) <= Work(c, u) && Work(c, u) <= Work(c, t);
  }

  function Share(c: nat, total: nat): real
    requires total > 0
  {
    c as real / total as real
  }

  lemma ShareStep(w: nat, c: nat, d: nat, total: nat)
    requires total > 0
    ensures Share(w, total) + Share(c, total) * d as real == Share(w + c * d, total)
  {
    assert (c * d) as real == c as real * d as real;
  }

  lemma ShareLess(a: nat, b: nat, total: nat)
    requires total > 0
    ensures Share(a, total) < Share(b, total) <==> a < b
  {
    assert Share(a, total) * total as real == a as real && Share(b, total) * total as real == b as real;
  }

  lemma ShareOf(k: nat, total: nat)
    requires total > 0
    ensures Share(k * total, total) == k as real
  {
    assert (k * total) as real == k as real * total as real;
  }

  /** The doubles of the search: exact, but for what a division by 0 gives. None of them is negative. */
  datatype Double = NaN | Infinite | Exact(value: real)

  function Quotient(c: nat, total: nat): Double {
    if total > 0 then Exact(Share(c, total)) else if c > 0 then Infinite else NaN
  }

  function Times(x: Double, d: nat): Double {
    match x
    case NaN => NaN
    case Infinite => if d == 0 then NaN else Infinite
    case Exact(value) => Exact(value * d as real)
  }

  function Plus(x: Double, y: Double): Double {
    if x.NaN? || y.NaN? then NaN else if x.Infinite? || y.Infinite? then Infinite else Exact(x.value + y.value)
  }

  /** No comparison with NaN succeeds, not even its equality with itself. */
  predicate Less(x: Double, y: Double) { x.Exact? && !y.NaN? && (y.Exact? ==> x.value < y.value) }

  predicate Same(x: Double, y: Double) { x == y && !x.NaN? }

  method IncomeOf(counters: seq<NodeCount>, total: nat, t: nat) returns (income: Double)
    requires t < |counters|
    ensures income == if total == 0 then NaN else Exact(Share(Work(counters, t), total))
  {
    income := Exact(0.0);
    var i := 0;
    while i < |counters|
      invariant i <= |counters| && (total == 0 && i > t ==> income.NaN?)
      invariant total > 0 ==> income == Exact(Share(WorkUpTo(counters, t, i), total))
    {
      CModIdle(i - t, |counters|);
      if total > 0 { ShareStep(WorkUpTo(counters, t, i), counters[i], Abs(i - t), total); }
      income := Plus(income, Times(Quotient(counters[i], total), Abs(CMod(i - t, |counters|))));
      i := i + 1;
    }
  }

  /** What the search knows after the incomes of the first t positions, for a head that has counted `total` requests:
      no work below the start value so far, or the first position of least work. */
  ghost predicate Searched(c: seq<nat>, total: nat, t: nat, hottest: nat, minIncome: Double) {
    total > 0 &&
    if minIncome == Exact(SENTINEL as real) then
      hottest == 0 && forall u: nat {:trigger Work(c, u)} :: u < t ==> Work(c, u) >= SENTINEL * total
    else
      && hottest < t && minIncome == Exact(Share(Work(c, hottest), total)) && Work(c, hottest) < SENTINEL * total
      && (forall u: nat {:trigger Work(c, u)} :: u < t ==> Work(c, hottest) <= Work(c, u))
      && (forall u: nat {:trigger Work(c, u)} :: u < hottest ==> Work(c, hottest) < Work(c, u))
  }

  /** The comparison of the search, between integers. */
  lemma SearchStep(c: seq<nat>, total: nat, t: nat, hottest: nat, minIncome: Double)
    requires Searched(c, total, t, hottest, minIncome) && t < |c|
    ensures var income := Exact(Share(Work(c, t), total));
      if Less(income, minIncome) then Searched(c, total, t + 1, t, income)
      else Searched(c, total, t + 1, hottest, minIncome)
  {
    ShareOf(SENTINEL, total);
    ShareLess(Work(c, t), SENTINEL * total, total);
    if hottest < t { ShareLess(Work(c, t), Work(c, hottest), total); }
  }

  /** The search: a result of 0 with an income other than the head's stands for no result. */
  method FindHottest(counters: seq<NodeCount>, total: nat)
    returns (hottest: nat, minIncome: Double, headIncome: Double)
    requires |counters| > 0
    ensures !Same(minIncome, headIncome) && hottest == 0 <==> Fails(counters, total)
    ensures Same(minIncome, headIncome) ==> hottest == 0
    ensures Fails(counters, total) ==> minIncome == Exact(SENTINEL as real)
    ensures !Fails(counters, total) ==> minIncome == Exact(Share(Work(counters, hottest), total))
    ensures !Fails(counters, total) ==> Hottest(counters, hottest)
  {
    hottest, minIncome, headIncome := 0, Exact(SENTINEL as real), Exact(0.0);
    var t := 0;
    while t < |counters|
      invariant t <= |counters|
      invariant t > 0 ==> headIncome == if total == 0 then NaN else Exact(Share(Work(counters, 0), total))
      invariant if total == 0 then hottest == 0 && minIncome == Exact(SENTINEL as real)
                else Searched(counters, total, t, hottest, minIncome)
    {
      var income := IncomeOf(counters, total, t);
      if t == 0 { headIncome := income; }
      if total > 0 { SearchStep(counters, total, t, hottest, minIncome); }
      if Less(income, minIncome) { minIncome, hottest := income, t; }
      t := t + 1;
    }
    if total > 0 { SearchEnds(counters, total, hottest, minIncome); }
  }

  /** The result of the search, told by its incomes. */
  lemma SearchEnds(c: seq<nat>, total: nat, hottest: nat, minIncome: Double)
    requires |c| > 0 && Searched(c, total, |c|, hottest, minIncome)
    ensures var headIncome := Exact(Share(Work(c, 0), total));
      && (!Same(minIncome, headIncome) && hottest == 0 <==> Hopeless(c, total))
      && (Same(minIncome, headIncome) ==> hottest == 0)
      && (Hopeless(c, total) ==> minIncome == Exact(SENTINEL as real))
      && (!Hopeless(c, total) ==> minIncome == Exact(Share(Work(c, hottest), total)) && Hottest(c, hottest))
  {
    ShareOf(SENTINEL, total);
    ShareLess(Work(c, 0), SENTINEL * total, total);
    ShareLess(SENTINEL * total, Work(c, 0), total);
    if hottest < |c| {
      ShareLess(Work(c, hottest), Work(c, 0), total);
      ShareLess(Work(c, hottest), SENTINEL * total, total);
    }
  }

  // ---------------------------------------------------------------- when the search cannot fail

  ghost function Sum(c: seq<nat>, i: nat): nat
    requires i <= |c|
  {
    if i == 0 then 0 else Sum(c, i - 1) + c[i - 1]
  }

  lemma {:induction false} WorkBound(c: seq<nat>, t: nat, i: nat)
    requires t < |c| && i <= |c|
    ensures WorkUpTo(c, t, i) <= Sum(c, i) * (|c| - 1)
  {
    if i > 0 {
      WorkBound(c, t, i - 1);
      AddUp(WorkUpTo(c, t, i - 1), Sum(c, i - 1), c[i - 1], Abs(i - 1 - t), |c| - 1);
    }
  }

  lemma AddUp(work: nat, x: nat, y: nat, d: nat, n: nat)
    requires work <= x * n && d <= n
    ensures work + y * d <= (x + y) * n
  {
    Words.MulMono(d, n, y);
    assert (x + y) * n == x * n + n * y;
  }

  /** With no more counted requests than the head has counted, the search finds a place. */
  lemma CountedIsHopeful(c: seq<nat>, total: nat)
    requires total > 0 && 0 < |c| <= MAX_NODES && Sum(c, |c|) <= total
    ensures !Fails(c, total)
  {
    WorkBound(c, 0, |c|);
    Words.MulMono(Sum(c, |c|), total, |c| - 1);
    Words.MulMono(|c| - 1, SENTINEL - 1, total);
    assert Work(c, 0) <= total * (SENTINEL - 1) < SENTINEL * total;
  }

  // ---------------------------------------------------------------- when it fails

  /** The sum of the distances of the first i positions from position t. */
  ghost function Dist(t: nat, i: nat): nat { if i == 0 then 0 else Dist(t, i - 1) + Abs(i - 1 - t) }

  lemma {:induction false} DistBelow(t: nat, i: nat)
    requires i <= t + 1
    ensures 2 * Dist(t, i) == i * (2 * t + 1 - i)
  {
    if i > 0 {
      DistBelow(t, i - 1);
      assert i * (2 * t + 1 - i) == (i - 1) * (2 * t + 2 - i) + 2 * (t - (i - 1));
    }
  }

  lemma {:induction false} DistAbove(t: nat, i: nat)
    requires i > t
    ensures 2 * Dist(t, i) == t * (t + 1) + (i - 1 - t) * (i - t)
  {
    if i == t + 1 {
      DistBelow(t, t + 1);
    } else {
      DistAbove(t, i - 1);
      assert (i - 1 - t) * (i - t) == (i - 2 - t) * (i - 1 - t) + 2 * (i - 1 - t);
    }
  }

  /** No position of n is nearer to all the others than the middle one. */
  lemma DistLeast(t: nat, n: nat)
    requires t < n
    ensures 4 * Dist(t, n) >= n * n - 1
  {
    DistAbove(t, n);
    Squares(t, n - 1 - t, n);
  }

  lemma Squares(a: nat, b: nat, n: nat)
    requires n == a + b + 1
    ensures 2 * (a * (a + 1) + b * (b + 1)) >= n * n - 1
  {
    SquareOfSum(a, b);
    SquareOfDifference(a, b);
    SquareOfSum(a + b, 1);
    SquareOfSum(a, 1);
    SquareOfSum(b, 1);
    NonNegative(a - b);
    assert a * (a + 1) == a * a + a && b * (b + 1) == b * b + b;
  }

  lemma SquareOfSum(x: int, y: int)
    ensures (x + y) * (x + y) == x * x + 2 * (x * y) + y * y
  {
  }

  lemma SquareOfDifference(x: int, y: int)
    ensures (x - y) * (x - y) == x * x - 2 * (x * y) + y * y
  {
  }

  lemma NonNegative(x: int)
    ensures x * x >= 0
  {
  }

  lemma {:induction false} WorkLeast(c: seq<nat>, t: nat, i: nat)
    requires i <= |c| && forall l :: 0 <= l < |c| ==> c[l] >= 1
    ensures WorkUpTo(c, t, i) >= Dist(t, i)
  {
    if i > 0 {
      WorkLeast(c, t, i - 1);
      Words.MulMono(1, c[i - 1], Abs(i - 1 - t));
    }
  }

  lemma ManyFar(d: nat, n: nat)
    requires 4 * d >= n * n - 1 && n >= 63246
    ensures d > 1000000000
  {
    Words.MulMono(63246, n, 63246);
    Words.MulMono(63246, n, n);
  }

  /** An input that fails: a ring of 63246 nodes or more, each inserted and not asked for since, whose head has counted
      one request. Every income is above the start value, so the search finds nothing and the bucket loses its head. */
  lemma FreshRingIsHopeless(c: seq<NodeCount>)
    requires 63246 <= |c| <= MAX_NODES && forall l :: 0 <= l < |c| ==> c[l] >= 1
    ensures Fails(c, 1)
  {
    forall u: nat | u < |c| ensures Work(c, u) > SENTINEL {
      WorkLeast(c, u, |c|);
      DistLeast(u, |c|);
      ManyFar(Dist(u, |c|), |c|);
    }
  }

  // ---------------------------------------------------------------- the shift

  ghost function Counters(R: seq<HashNode>): seq<NodeCount>
    reads R
  {
    seq(|R|, i requires 0 <= i < |R| reads R => R[i].counter)
  }

  lemma TurnAt<Id>(R: seq<Id>, t: nat, a: nat)
    requires t <= |R| && a < |R|
    ensures Turn(R, t)[if a >= t then a - t else a + (|R| - t)] == R[a]
  {
  }

  /** Any node of a ring may be its head. */
  lemma TurnBucket<Id>(mem: Mem<Id>, R: seq<Id>, T: nat, i: nat, t: nat)
    requires T > 0 && BucketOk(mem, R, T, i) && t < |R|
    ensures BucketOk(mem, Turn(R, t), T, i)
  {
    var S := Turn(R, t);
    if t > 0 { TurnRing(mem, R, t); } else { assert S == R; }
    TurnRotated(KeysOf(mem, R), t);
    assert KeysOf(mem, S) == Turn(KeysOf(mem, R), t);
    forall a {:trigger S[a]} | 0 <= a < |S| ensures S[a] in mem && Bucket(mem[S[a]].key, T) == i {
      assert S[a] == R[if a < |R| - t then t + a else a - (|R| - t)];
    }
  }

  /** So the table stays in order when a head moves. */
  lemma TurnTable<Id>(mem: Mem<Id>, rings: Rings<Id>, T: nat, i: nat, t: nat)
    requires T > 0 && TableOk(mem, rings, T) && i in rings && BucketOk(mem, rings[i], T, i) && t < |rings[i]|
    ensures TableOk(mem, rings[i := Turn(rings[i], t)], T)
  {
    var R := rings[i];
    var rs := rings[i := Turn(R, t)];
    TurnBucket(mem, R, T, i, t);
    forall l {:trigger BucketOk(mem, rs[l], T, l)} | l in rs ensures BucketOk(mem, rs[l], T, l) {
      if l != i { assert BucketOk(mem, rings[l], T, l); }
    }
    forall x {:trigger OnRing(mem, rs, T, x)} | x in mem ensures OnRing(mem, rs, T, x) {
      assert OnRing(mem, rings, T, x);
      if Bucket(mem[x].key, T) == i {
        var a :| 0 <= a < |R| && R[a] == x;
        TurnAt(R, t, a);
      }
    }
  }

  /** The counters of a ring from its head, which are reset. */
  method TakeCounters(h: Table, i: nat) returns (counters: seq<NodeCount>)
    requires h.Coupled() && i in h.rings && Ring(h.mem, h.rings[i])
    modifies h.rings[i]
    ensures h.Coupled() && counters == old(Counters(h.rings[i]))
    ensures forall x {:trigger x.counter} :: x in h.rings[i] ==> x.counter == 0
  {
    ghost var R := h.rings[i];
    assert HeadAt(h.slots[..], h.rings, i);
    var head := h.slots[i];
    assert LinkAt(h.mem, R, 0) && head.View() == h.mem[head];
    counters := [head.counter];
    head.counter := 0;
    var p := head.next;
    while p != head
      invariant 1 <= |counters| <= |R| && p == R[if |counters| == |R| then 0 else |counters|] && h.Coupled()
      invariant forall a {:trigger R[a]} :: 0 <= a < |counters| ==>
        R[a].counter == 0 && counters[a] == old(R[a].counter)
      invariant forall a {:trigger R[a]} :: |counters| <= a < |R| ==> R[a].counter == old(R[a].counter)
      decreases |R| - |counters|
    {
      assert LinkAt(h.mem, R, |counters|) && p.View() == h.mem[p];
      counters := counters + [p.counter];
      p.counter := 0;
      p := p.next;
    }
  }

  /** The node at position t > 0 of a ring. */
  method NodeAt(h: Table, i: nat, t: nat) returns (hottest: HashNode?)
    requires h.Coupled() && i in h.rings && Ring(h.mem, h.rings[i]) && t < |h.rings[i]|
    ensures hottest == if t == 0 then null else h.rings[i][t]
  {
    ghost var R := h.rings[i];
    assert HeadAt(h.slots[..], h.rings, i);
    var head := h.slots[i];
    assert LinkAt(h.mem, R, 0) && head.View() == h.mem[head];
    hottest := null;
    var l, p := 1, head.next;
    while p != head
      invariant 1 <= l <= |R| && p == R[if l == |R| then 0 else l] && (t == 0 || l <= t)
      decreases |R| - l
    {
      if l == t { return p; }
      assert LinkAt(h.mem, R, l) && p.View() == h.mem[p];
      l, p := l + 1, p.next;
    }
  }

  lemma HeadsTurn(s: Slots, rings: Rings<HashNode>, i: nat, t: nat)
    requires HeadsAre(s, rings) && i in rings && t < |rings[i]|
    ensures HeadsAre(s[i := rings[i][t]], rings[i := Turn(rings[i], t)])
  {
    var s', r := s[i := rings[i][t]], rings[i := Turn(rings[i], t)];
    forall l: nat {:trigger HeadAt(s', r, l)} | l < |s| ensures HeadAt(s', r, l) { assert HeadAt(s, rings, l); }
  }

  /** The head moves to position t > 0 of its ring, or to no node at all. */
  method MoveHead(h: Table, i: nat, t: nat) returns (lost: bool)
    requires h.Ok() && i in h.rings && BucketOk(h.mem, h.rings[i], h.T(), i) && t < |h.rings[i]|
    modifies h`rings, h.slots, h.counters, h.active
    ensures i < h.counters.Length && (lost <==> t == 0)
    ensures lost ==> h.rings == old(h.rings) && h.slots[..] == old(h.slots[..])[i := null]
    ensures !lost ==> h.Ok() && h.rings == old(h.rings)[i := Turn(old(h.rings)[i], t)]
    ensures h.counters[..] == old(h.counters[..])[i := 0] && h.active[..] == old(h.active[..])[i := false]
  {
    ghost var s := h.slots[..];
    assert HeadAt(s, h.rings, i);
    var node := NodeAt(h, i, t);
    h.StoreHead(i, node);
    lost := node == null;
    if !lost {
      TurnTable(h.mem, h.rings, h.T(), i, t);
      HeadsTurn(s, h.rings, i, t);
      h.rings := h.rings[i := Turn(h.rings[i], t)];
    }
  }

  /** do_hotspot_shift on bucket i: the head moves to the first node of least income, the ring stays as it is, the
      table stays in order, and all counters start afresh. Where the search fails, the bucket loses its head. */
  method Shift(h: Table, i: nat) returns (res: ShiftResult, lost: bool, ghost t: nat)
    requires h.Ok() && i in h.rings && BucketOk(h.mem, h.rings[i], h.T(), i) && |h.rings[i]| <= MAX_NODES
    modifies h`rings, h.slots, h.counters, h.active, h.rings[i]
    ensures i < h.counters.Length
    ensures lost <==> Fails(old(Counters(h.rings[i])), old(h.counters[i]))
    ensures lost ==> res == ShiftRehash && h.rings == old(h.rings) && h.slots[..] == old(h.slots[..])[i := null]
    ensures !lost ==> Hottest(old(Counters(h.rings[i])), t)
    ensures !lost ==> h.Ok() && h.rings == old(h.rings)[i := Turn(old(h.rings)[i], t)]
    ensures !lost ==>
      (res == ShiftRehash <==>
        t != 0 && Work(old(Counters(h.rings[i])), t) > INCOME_THRESHOLD * old(h.counters[i]))
    ensures h.counters[..] == old(h.counters[..])[i := 0] && h.active[..] == old(h.active[..])[i := false]
    ensures forall x {:trigger x.counter} :: x in old(h.rings)[i] ==> x.counter == 0
    ensures h.mem == old(h.mem)
  {
    ghost var c, b, R := h.counters[..], h.active[..], h.rings[i];
    assert HeadAt(h.slots[..], h.rings, i);
    h.active[i] := true;
    var total := h.counters[i];
    var counters := TakeCounters(h, i);
    var hottest, minIncome, headIncome := FindHottest(counters, total);
    t, lost, res := hottest, false, ShiftSuccess;
    if Same(minIncome, headIncome) {
      assert Turn(R, 0) == R;
    } else {
      lost := MoveHead(h, i, hottest);
      if total > 0 && !lost {
        ShareOf(INCOME_THRESHOLD, total);
        ShareLess(INCOME_THRESHOLD * total, Work(counters, t), total);
      }
      if Less(Exact(INCOME_THRESHOLD as real), minIncome) { return ShiftRehash, lost, t; }
    }
    h.counters[i], h.active[i] := 0, false;
    assert h.counters[..] == c[i := 0] && h.active[..] == b[i := false];
  }
}
