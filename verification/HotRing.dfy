/** HotRing: a hash table whose buckets are singly linked rings in tag order, entered at a movable head.
    The ghost field `mem` of a table is the value of its nodes, `rings` the rings from their heads. */
module HotRing {
  import opened Errno
  import opened RingOrder
  import opened RingHeap
  import opened RingSplit
  import Words

  const NBITS: nat := 32

  /** The access counters: 14 bits in a node, 15 in a head. */
  type NodeCount = c: nat | c < 0x4000
  type HeadCount = c: nat | c < 0x8000

  /** counter++ in 14 and in 15 bits. */
  function NodeHit(c: NodeCount): NodeCount { if c == 0x3fff then 0 else c + 1 }
  function HeadHit(c: HeadCount): HeadCount { if c == 0x7fff then 0 else c + 1 }

  function NodeHits(c: NodeCount, m: nat): NodeCount { if m == 0 then c else NodeHit(NodeHits(c, m - 1)) }

  function HeadHits(c: HeadCount, m: nat): HeadCount { if m == 0 then c else HeadHit(HeadHits(c, m - 1)) }

  /** m finds of a node add m to its counter, modulo 2^14. */
  lemma {:induction false} NodeWraps(c: NodeCount, m: nat)
    ensures NodeHits(c, m) == (c + m) % 0x4000
  {
    if m > 0 { NodeWraps(c, m - 1); }
  }

  /** m requests to a bucket add m to the counter of its head, modulo 2^15. */
  lemma {:induction false} HeadWraps(c: HeadCount, m: nat)
    ensures HeadHits(c, m) == (c + m) % 0x8000
  {
    if m > 0 { HeadWraps(c, m - 1); }
  }

  class HashNode {
    /** Null stands for LIST_POISON1. */
    var next: HashNode?
    var key: nat
    var tag: nat
    /** 0 is NULL. */
    var value: nat
    /** How often the node was found since the last shift of its bucket. It shares a word with `next`. */
    var counter: NodeCount

    constructor ()
      ensures View() == Cell(Poison, 0, 0, 0)
    {
      next, key, tag, value, counter := null, 0, 0, 0, 0;
    }

    ghost function View(): Cell<HashNode>
      reads this
    {
      var link: Link<HashNode> := if next == null then Poison else (var succ: HashNode := next; To(succ));
      Cell(link, key, tag, value)
    }
  }

  method ListAdd(node: HashNode, prev: HashNode)
    requires node != prev
    modifies node`next, node`counter, prev`next
    ensures node.next == old(prev.next) && prev.next == node && node.counter == prev.counter
  {
    node.next, node.counter := prev.next, prev.counter;
    prev.next := node;
  }

  method ListDel(prev: HashNode, entry: HashNode)
    requires entry != prev
    modifies entry`next, prev`next
    ensures prev.next == old(entry.next) && entry.next == null
  {
    prev.next := entry.next;
    entry.next := null;
  }

  method InsertEntries(node: HashNode, key: nat, tag: nat, value: nat) returns (err: int)
    modifies node`key, node`tag, node`value
    ensures old(node.value) != 0 ==> err == -EEXIST && node.View() == old(node.View())
    ensures old(node.value) == 0 ==>
      err == 1 && node.View() == old(node.View()).(key := key, tag := tag, value := value)
  {
    if node.value != 0 { return -EEXIST; }
    node.key, node.tag := key, tag;
    node.value := value;
    err := 1;
  }

  // ---------------------------------------------------------------- hashCode

  /** 1 << b */
  function Bit(b: nat): (p: nat)
    ensures p > 0
  {
    if b == 0 then 1 else 2 * Bit(b - 1)
  }

  lemma {:induction false} BitSum(a: nat, b: nat)
    ensures Bit(a + b) == Bit(a) * Bit(b)
  {
    if b > 0 {
      BitSum(a, b - 1);
      assert Bit(a + b) == 2 * (Bit(a) * Bit(b - 1)) == Bit(a) * (2 * Bit(b - 1));
    }
  }

  lemma SmallMod(x: nat, m: nat)
    requires x < m
    ensures x % m == x
  {
  }

  /** A key below 2^n has a bucket of the table, and is given back by its bucket and tag. */
  lemma HashCodeSplits(key: nat, n: nat, k: nat)
    requires k <= n && key < Bit(n)
    ensures Bucket(key, Bit(n - k)) < Bit(k)
    ensures key == Bucket(key, Bit(n - k)) * Bit(n - k) + key % Bit(n) % Bit(n - k)
  {
    var T, i := Bit(n - k), Bucket(key, Bit(n - k));
    BitSum(k, n - k);
    SmallMod(key, Bit(n));
    assert key == i * T + key % T;
    if i >= Bit(k) { Words.MulMono(Bit(k), i, T); }
  }

  type Slots = seq<HashNode?>

  ghost predicate HeadAt(s: Slots, rings: Rings<HashNode>, i: nat)
    requires i < |s|
  {
    if i in rings then |rings[i]| > 0 && s[i] == rings[i][0] else s[i] == null
  }

  /** The slots hold the heads of the rings, and null where there is none. */
  ghost predicate HeadsAre(s: Slots, rings: Rings<HashNode>) {
    && (forall i: nat {:trigger HeadAt(s, rings, i)} :: i < |s| ==> HeadAt(s, rings, i))
    && (forall i {:trigger i in rings} :: i in rings ==> i < |s|)
  }

  lemma HeadsPut(s: Slots, rings: Rings<HashNode>, i: nat, j: nat, x: HashNode)
    requires HeadsAre(s, rings) && i < |s| && (i in rings ==> j < |rings[i]|)
    ensures HeadsAre(if i in rings then s else s[i := x], rings[i := PutRing(rings, i, j, x)])
  {
    var s', r := if i in rings then s else s[i := x], rings[i := PutRing(rings, i, j, x)];
    forall l: nat {:trigger HeadAt(s', r, l)} | l < |s| ensures HeadAt(s', r, l) { assert HeadAt(s, rings, l); }
  }

  lemma HeadsBehead(s: Slots, rings: Rings<HashNode>, i: nat)
    requires HeadsAre(s, rings) && i in rings && |rings[i]| > 0
    ensures HeadsAre(s[i := if |rings[i]| == 1 then null else rings[i][1]], BeheadRings(rings, i))
  {
    var s', r := s[i := if |rings[i]| == 1 then null else rings[i][1]], BeheadRings(rings, i);
    forall l: nat {:trigger HeadAt(s', r, l)} | l < |s| ensures HeadAt(s', r, l) { assert HeadAt(s, rings, l); }
  }

  datatype GetResult = NotFound | AccessHot | AccessCold

  class Table {
    const n: nat
    const k: nat
    /** A slot holds the head node of its bucket; beside it are the head's request counter and active bit. */
    const slots: array<HashNode?>
    const counters: array<HeadCount>
    const active: array<bool>
    ghost var mem: Mem<HashNode>
    ghost var rings: Rings<HashNode>

    /** hash_alloc, for widths whose shifts fit an int. */
    constructor (n: nat, k: nat)
      requires k <= n && k <= 30 && n - k <= 30
      ensures Ok() && fresh(slots) && fresh(counters) && fresh(active)
      ensures this.n == n && this.k == k && mem == map[] && rings == map[]
      ensures forall i :: 0 <= i < slots.Length ==> slots[i] == null
      ensures forall i :: 0 <= i < counters.Length ==> counters[i] == 0
      ensures forall i :: 0 <= i < active.Length ==> !active[i]
    {
      this.n, this.k := n, k;
      slots := new HashNode?[Bit(k)](_ => null);
      counters, active := new HeadCount[Bit(k)](_ => 0), new bool[Bit(k)](_ => false);
      mem, rings := map[], map[];
    }

    /** The number of keys in a bucket. */
    function T(): (t: nat)
      ensures t > 0
    {
      if k <= n then Bit(n - k) else 1
    }

    /** The nodes and slots are what the ghost fields say. */
    ghost predicate Coupled()
      reads this, slots, mem.Keys
    {
      && k <= n && slots.Length == counters.Length == active.Length == Bit(k) && HeadsAre(slots[..], rings)
      && forall x {:trigger x.View()} :: x in mem ==> x.View() == mem[x]
    }

    ghost predicate Ok()
      reads this, slots, mem.Keys
    {
      Coupled() && TableOk(mem, rings, T()) && TagsOk(mem, T())
    }

    /** The walk of __hash_get: from any head, a key is found exactly when it is on the ring of its bucket, in spite of
        the early exits; prev is its predecessor, and null exactly for the head. */
    method Search(key: nat) returns (res: GetResult, node: HashNode?, prev: HashNode?, ghost at: nat)
      requires Coupled() && key < Bit(n)
      requires Bucket(key, T()) in rings ==> BucketOk(mem, rings[Bucket(key, T())], T(), Bucket(key, T()))
      ensures res == NotFound <==> Bucket(key, T()) !in rings || key !in KeysOf(mem, rings[Bucket(key, T())])
      ensures res == NotFound ==> node == prev == null
      ensures res != NotFound ==> FirstAt(KeysOf(mem, rings[Bucket(key, T())]), key, at)
      ensures res != NotFound ==> node == rings[Bucket(key, T())][at]
      ensures res != NotFound ==> prev == if at == 0 then null else rings[Bucket(key, T())][at - 1]
      ensures res == AccessHot <==> res != NotFound && at == 0
    {
      HashCodeSplits(key, n, k);
      var i := Bucket(key, T());
      var head := slots[i];
      assert HeadAt(slots[..], rings, i);
      if head == null { return NotFound, null, null, 0; }
      ghost var R := rings[i];
      ghost var t := KeysOf(mem, R);
      assert R[0] in mem && R[0].View() == mem[R[0]] && t[0] == head.key;
      if head.key == key { return AccessHot, head, null, 0; }
      var last, p := head, head.next;
      assert LinkAt(mem, R, 0);
      at := 1;
      while p != head
        invariant 1 <= at <= |R| && last == R[at - 1] && p == R[if at == |R| then 0 else at]
        invariant forall b {:trigger t[b]} :: 0 <= b < at ==> t[b] != key
        decreases |R| - at
      {
        assert p in mem && p.View() == mem[p] && t[at] == p.key && last in mem && last.View() == mem[last] &&
          t[at - 1] == last.key;
        if p.key == key { return AccessCold, p, last, at; }
        if Passed(last.key, p.key, key) {
          PassedMeansAbsent(t, at - 1, key);
          return NotFound, null, null, 0;
        }
        assert LinkAt(mem, R, at);
        last, p := p, p.next;
        at := at + 1;
      }
      return NotFound, null, null, 0;
    }

    /** __hash_get: the walk, which counts the request at the head of the bucket and at the node it finds. */
    method Get(key: nat) returns (res: GetResult, node: HashNode?, prev: HashNode?, ghost at: nat)
      requires Coupled() && key < Bit(n)
      requires Bucket(key, T()) in rings ==> BucketOk(mem, rings[Bucket(key, T())], T(), Bucket(key, T()))
      modifies counters, mem.Keys`counter
      ensures Coupled()
      ensures res == NotFound <==> Bucket(key, T()) !in rings || key !in KeysOf(mem, rings[Bucket(key, T())])
      ensures res == NotFound ==> node == prev == null
      ensures res != NotFound ==> FirstAt(KeysOf(mem, rings[Bucket(key, T())]), key, at)
      ensures res != NotFound ==> node == rings[Bucket(key, T())][at]
      ensures res != NotFound ==> prev == if at == 0 then null else rings[Bucket(key, T())][at - 1]
      ensures res == AccessHot <==> res != NotFound && at == 0
      ensures forall j {:trigger counters[j]} :: 0 <= j < counters.Length ==>
        counters[j] == if j == Bucket(key, T()) && j in rings then HeadHit(old(counters[j])) else old(counters[j])
      ensures forall x {:trigger x.counter} :: x in mem ==>
        x.counter == if x == node then NodeHit(old(x.counter)) else old(x.counter)
    {
      HashCodeSplits(key, n, k);
      var i := Bucket(key, T());
      assert HeadAt(slots[..], rings, i);
      if slots[i] != null {
        counters[i] := HeadHit(counters[i]);
      }
      res, node, prev, at := Search(key);
      if node != null {
        assert node in mem;
        Count(node);
      }
    }

    method Count(node: HashNode)
      requires Coupled() && node in mem
      modifies node`counter
      ensures Coupled() && node.counter == NodeHit(old(node.counter))
    {
      node.counter := NodeHit(node.counter);
      forall x {:trigger x.View()} | x in mem ensures x.View() == mem[x] { assert old(x.View()) == mem[x]; }
    }

    /** The walk of __hash_create: behind which node does a new node with this tag go? */
    method Place(i: nat, tag: nat) returns (prev: HashNode, ghost j: nat)
      requires Coupled() && i in rings && Ring(mem, rings[i])
      ensures Stop(TagsOf(mem, rings[i]), j, tag) && prev == rings[i][j] && prev in mem
    {
      ghost var R := rings[i];
      ghost var t := TagsOf(mem, R);
      assert HeadAt(slots[..], rings, i);
      var head := slots[i];
      assert LinkAt(mem, R, 0) && head.View() == mem[head];
      prev, j := head, 0;
      var p := head.next;
      while p != head
        invariant j < |R| && prev == R[j] && p == R[Succ(j, |R|)]
        invariant forall b: nat {:trigger FitsAt(t, b, tag)} :: b < j ==> !FitsAt(t, b, tag)
        decreases |R| - j
      {
        assert LinkAt(mem, R, j) && LinkAt(mem, R, j + 1) && prev.View() == mem[prev] && p.View() == mem[p];
        assert t[j] == prev.tag && t[j + 1] == p.tag;
        if prev.tag > p.tag {
          if tag <= p.tag || prev.tag < tag { assert FitsAt(t, j, tag); break; }
        }
        if prev.tag < tag && tag <= p.tag { assert FitsAt(t, j, tag); break; }
        assert !FitsAt(t, j, tag);
        prev, p := p, p.next;
        j := j + 1;
      }
      assert LinkAt(mem, R, j);
    }

    /** A store to the node field of a head. Its request counter and active bit are parts of the same word, and go. */
    method StoreHead(i: nat, node: HashNode?)
      requires i < slots.Length == counters.Length == active.Length
      modifies slots, counters, active
      ensures slots[..] == old(slots[..])[i := node]
      ensures counters[..] == old(counters[..])[i := 0] && active[..] == old(active[..])[i := false]
    {
      slots[i], counters[i], active[i] := node, 0, false;
    }

    /** __hash_create: a new empty node, alone on the ring of an empty bucket, else where the walk stops. */
    method Create(i: nat, tag: nat) returns (node: HashNode, ghost j: nat)
      requires Coupled() && i < slots.Length && (i in rings ==> Ring(mem, rings[i]))
      modifies this, slots, counters, active, mem.Keys
      ensures Coupled() && fresh(node) && node in mem && node.View() == mem[node]
      ensures i in old(rings) ==> Stop(TagsOf(old(mem), old(rings)[i]), j, tag) && old(rings)[i][j] in old(mem)
      ensures mem == PutMem(old(mem), old(rings), i, j, node, Cell(Poison, 0, 0, 0))
      ensures rings == old(rings)[i := PutRing(old(rings), i, j, node)] && node.counter == 1
      ensures counters[..] == if i in old(rings) then old(counters[..]) else old(counters[..])[i := 0]
      ensures active[..] == if i in old(rings) then old(active[..]) else old(active[..])[i := false]
      ensures forall x {:trigger x.counter} :: x in old(mem) ==> x.counter == old(x.counter)
    {
      ghost var s := slots[..];
      assert HeadAt(s, rings, i);
      j := 0;
      if slots[i] != null {
        var prev;
        prev, j := Place(i, tag);
        node := new HashNode();
        assert prev.View() == mem[prev];
        ListAdd(node, prev);
      } else {
        node := new HashNode();
        node.next := node;
        StoreHead(i, node);
      }
      node.counter := 1;
      HeadsPut(s, rings, i, j, node);
      assert slots[..] == if i in rings then s else s[i := node];
      ghost var m := PutMem(mem, rings, i, j, node, Cell(Poison, 0, 0, 0));
      assert forall x {:trigger x.View()} :: x in m && x != node ==> x in mem && x.View() == m[x];
      assert node.View() == m[node];
      rings, mem := rings[i := PutRing(rings, i, j, node)], m;
    }

    /** __hash_create and insert_entries together: the node goes where its key belongs, all else stays. */
    method Add(i: nat, key: nat, tag: nat, value: nat) returns (node: HashNode, err: int, ghost j: nat)
      requires Ok() && i < slots.Length && i == Bucket(key, T()) && key == i * T() + tag
      modifies this, slots, counters, active, mem.Keys
      ensures Ok() && err == 1 && fresh(node)
      ensures i in old(rings) ==> Stop(KeysOf(old(mem), old(rings)[i]), j, key) && old(rings)[i][j] in old(mem)
      ensures mem == PutMem(old(mem), old(rings), i, j, node, Cell(Poison, key, tag, value))
      ensures rings == old(rings)[i := PutRing(old(rings), i, j, node)] && node.counter == 1
      ensures counters[..] == if i in old(rings) then old(counters[..]) else old(counters[..])[i := 0]
      ensures active[..] == if i in old(rings) then old(active[..]) else old(active[..])[i := false]
      ensures forall x {:trigger x.counter} :: x in old(mem) ==> x.counter == old(x.counter)
    {
      ghost var c := Cell(Poison, key, tag, value);
      assert i in rings ==> BucketOk(mem, rings[i], T(), i);
      node, j := Create(i, tag);
      if i in old(rings) { TagStop(old(mem), old(rings)[i], T(), i, j, key, tag); }
      PutOk(old(mem), old(rings), T(), i, j, node, c);
      err := InsertEntries(node, key, tag, value);
      mem := mem[node := mem[node].(key := key, tag := tag, value := value)];
      assert mem == PutMem(old(mem), old(rings), i, j, node, c);
    }

    /** hash_insert: the table stays in order; one node is added to the ring of its bucket, behind some node of it, so
        every head stays; all that other nodes lose is a next pointer. */
    method HashInsert(key: nat, value: nat) returns (err: int, ghost node: HashNode, ghost j: nat)
      requires Ok() && key < Bit(n)
      modifies this, slots, counters, active, mem.Keys
      ensures Ok() && err == 0 && fresh(node)
      ensures mem.Keys == old(mem).Keys + {node} && SameData(old(mem), mem, old(mem).Keys)
      ensures mem[node].key == key && mem[node].value == value
      ensures Bucket(key, T()) in old(rings) ==> j < |old(rings)[Bucket(key, T())]|
      ensures rings == old(rings)[Bucket(key, T()) := PutRing(old(rings), Bucket(key, T()), j, node)]
      ensures var i := Bucket(key, T());
        && i < counters.Length && node.counter == 1
        && counters[..] == (if i in old(rings) then old(counters[..]) else old(counters[..])[i := 0])
        && active[..] == (if i in old(rings) then old(active[..]) else old(active[..])[i := false])
      ensures forall x {:trigger x.counter} :: x in old(mem) ==> x.counter == old(x.counter)
    {
      HashCodeSplits(key, n, k);
      var i, tag := Bucket(key, T()), key % Bit(n) % T();
      var x, e;
      x, e, j := Add(i, key, tag, value);
      if e < 0 { return e, x, j; }
      return 0, x, j;
    }

    /** hotring_delete_head: the head leaves the table, its successor is the new head, the order stays. */
    method DeleteHead(i: nat)
      requires Coupled() && TableOk(mem, rings, T()) && i in rings && BucketOk(mem, rings[i], T(), i)
      modifies this, slots, counters, active, mem.Keys
      ensures Coupled() && TableOk(mem, rings, T())
      ensures mem == Behead(old(mem), old(rings)[i]) && rings == BeheadRings(old(rings), i)
      ensures slots[..] == old(slots[..])[i := slots[i]]
      ensures counters[..] == old(counters[..])[i := 0] && active[..] == old(active[..])[i := false]
    {
      ghost var R, s := rings[i], slots[..];
      assert HeadAt(s, rings, i);
      HeadsBehead(s, rings, i);
      var head := slots[i];
      assert LinkAt(mem, R, 0) && head.View() == mem[head];
      BeheadOk(mem, rings, T(), i);
      if head == head.next {
        assert R[0] == R[Succ(0, |R|)];
        StoreHead(i, null);
        rings, mem := BeheadRings(rings, i), Behead(mem, R);
        return;
      }
      StoreHead(i, head.next);
      var prev, p := head, head.next;
      ghost var a: nat := 0;
      while p != head
        invariant a < |R| && prev == R[a] && p == R[Succ(a, |R|)]
        decreases |R| - a
      {
        assert LinkAt(mem, R, a + 1) && p.View() == mem[p];
        prev, p := p, p.next;
        a := a + 1;
      }
      assert a == |R| - 1 && LinkAt(mem, R, a) && prev.View() == mem[prev];
      ListDel(prev, head);
      rings, mem := BeheadRings(rings, i), Behead(mem, R);
    }
  }
}
