/** hotring_delete: a node behind the head leaves its ring, but with the head goes its whole bucket. */
module HotDelete {
  import opened RingOrder
  import opened RingHeap
  import opened HotRing

  /** list_del of the node at position a > 0, and its end. */
  function TakeOut<Id>(mem: Mem<Id>, R: seq<Id>, a: nat): Mem<Id>
    requires 0 < a < |R| && R[a - 1] in mem && R[a] in mem
  {
    mem[R[a - 1] := mem[R[a - 1]].(next := mem[R[a]].next)] - {R[a]}
  }

  /** The nodes of a ring. */
  ghost function Nodes<Id>(R: seq<Id>): set<Id> { set x | x in R }

  lemma TakeBucket<Id>(mem: Mem<Id>, R: seq<Id>, T: nat, i: nat, a: nat)
    requires T > 0 && BucketOk(mem, R, T, i) && 0 < a < |R|
    ensures BucketOk(TakeOut(mem, R, a), RemoveAt(R, a), T, i)
  {
    var m, S := TakeOut(mem, R, a), RemoveAt(R, a);
    assert forall l {:trigger S[l]} :: 0 <= l < |S| ==> S[l] == R[if l < a then l else l + 1] && S[l] != R[a];
    assert LinkAt(mem, R, a);
    forall l: nat | l < |S| ensures LinkAt(m, S, l) {
      var o := if l < a then l else l + 1;
      assert LinkAt(mem, R, o);
      if l != a - 1 { assert R[o] != R[a - 1] && S[Succ(l, |S|)] == R[Succ(o, |R|)]; }
    }
    RemoveKeeps(KeysOf(mem, R), a);
    assert KeysOf(m, S) == RemoveAt(KeysOf(mem, R), a);
  }

  lemma TakeOk<Id>(mem: Mem<Id>, rings: Rings<Id>, T: nat, i: nat, a: nat)
    requires T > 0 && TableOk(mem, rings, T) && TagsOk(mem, T) && i in rings && BucketOk(mem, rings[i], T, i) &&
      0 < a < |rings[i]|
    ensures TableOk(TakeOut(mem, rings[i], a), rings[i := RemoveAt(rings[i], a)], T) &&
      TagsOk(TakeOut(mem, rings[i], a), T)
  {
    var R := rings[i];
    var m, S := TakeOut(mem, R, a), RemoveAt(R, a);
    var rs := rings[i := S];
    TakeBucket(mem, R, T, i, a);
    forall l {:trigger BucketOk(m, rs[l], T, l)} | l in rs ensures BucketOk(m, rs[l], T, l) {
      if l != i { assert BucketOk(mem, rings[l], T, l); SameRing(mem, m, rings[l], T, l); }
    }
    forall y {:trigger OnRing(m, rs, T, y)} | y in m ensures OnRing(m, rs, T, y) {
      assert OnRing(mem, rings, T, y);
      if Bucket(mem[y].key, T) == i {
        var b :| 0 <= b < |R| && R[b] == y;
        assert S[if b < a then b else b - 1] == y;
      }
    }
    forall y {:trigger TagAt(m, T, y)} | y in m ensures TagAt(m, T, y) { assert TagAt(mem, T, y); }
  }

  lemma DropOk<Id>(mem: Mem<Id>, rings: Rings<Id>, T: nat, i: nat)
    requires T > 0 && TableOk(mem, rings, T) && TagsOk(mem, T) && i in rings && BucketOk(mem, rings[i], T, i)
    ensures TableOk(mem - Nodes(rings[i]), rings - {i}, T) && TagsOk(mem - Nodes(rings[i]), T)
  {
    var m, rs := mem - Nodes(rings[i]), rings - {i};
    forall l {:trigger BucketOk(m, rs[l], T, l)} | l in rs ensures BucketOk(m, rs[l], T, l) {
      assert BucketOk(mem, rings[l], T, l);
      SameRing(mem, m, rings[l], T, l);
    }
    forall y {:trigger OnRing(m, rs, T, y)} | y in m ensures OnRing(m, rs, T, y) { assert OnRing(mem, rings, T, y); }
    forall y {:trigger TagAt(m, T, y)} | y in m ensures TagAt(m, T, y) { assert TagAt(mem, T, y); }
  }

  lemma HeadsTake(s: Slots, rings: Rings<HashNode>, i: nat, a: nat)
    requires HeadsAre(s, rings) && i in rings && 0 < a < |rings[i]|
    ensures HeadsAre(s, rings[i := RemoveAt(rings[i], a)])
  {
    var r := rings[i := RemoveAt(rings[i], a)];
    forall l: nat {:trigger HeadAt(s, r, l)} | l < |s| ensures HeadAt(s, r, l) { assert HeadAt(s, rings, l); }
  }

  lemma HeadsDrop(s: Slots, rings: Rings<HashNode>, i: nat)
    requires HeadsAre(s, rings) && i in rings
    ensures HeadsAre(s[i := null], rings - {i})
  {
    var s', r := s[i := null], rings - {i};
    forall l: nat {:trigger HeadAt(s', r, l)} | l < |s'| ensures HeadAt(s', r, l) { assert HeadAt(s, rings, l); }
  }

  /** hotring_delete: the table stays in order, and a key that is not stored changes nothing. `at` is the position of
      the node found on its ring; with the head every node of its ring is lost. */
  method Delete(h: Table, key: nat) returns (deleted: bool, ghost at: nat)
    requires h.Ok() && key < Bit(h.n)
    modifies h, h.slots, h.counters, h.mem.Keys
    ensures h.Ok()
    ensures deleted <==>
      Bucket(key, h.T()) in old(h.rings) && key in KeysOf(old(h.mem), old(h.rings)[Bucket(key, h.T())])
    ensures !deleted ==> h.mem == old(h.mem) && h.rings == old(h.rings)
    ensures deleted ==> var i := Bucket(key, h.T());
      var R := old(h.rings)[i];
      && FirstAt(KeysOf(old(h.mem), R), key, at)
      && (at > 0 ==>
        R[at - 1] in old(h.mem) && R[at] in old(h.mem) && h.mem == TakeOut(old(h.mem), R, at) &&
          h.rings == old(h.rings)[i := RemoveAt(R, at)])
      && (at == 0 ==> h.mem == old(h.mem) - Nodes(R) && h.rings == old(h.rings) - {i})
    ensures forall j {:trigger h.counters[j]} :: 0 <= j < h.counters.Length ==>
      var asked := j == Bucket(key, h.T()) && j in old(h.rings);
      h.counters[j] == if asked then HeadHit(old(h.counters[j])) else old(h.counters[j])
  {
    HashCodeSplits(key, h.n, h.k);
    var i := Bucket(key, h.T());
    ghost var mem, rings, s := h.mem, h.rings, h.slots[..];
    assert HeadAt(s, rings, i) && (i in rings ==> BucketOk(mem, rings[i], h.T(), i));
    var res, target, prev;
    res, target, prev, at := h.Get(key);
    if res == NotFound { return false, 0; }
    ghost var R := rings[i];
    if prev != null {
      TakeOk(mem, rings, h.T(), i, at);
      HeadsTake(s, rings, i, at);
      assert prev.View() == mem[prev] && target.View() == mem[target] && R[at - 1] != R[at];
      ListDel(prev, target);
      ghost var m := TakeOut(mem, R, at);
      assert forall x {:trigger x.View()} :: x in m ==> x in mem && x.View() == m[x];
      h.rings, h.mem := rings[i := RemoveAt(R, at)], m;
    } else {
      DropOk(mem, rings, h.T(), i);
      HeadsDrop(s, rings, i);
      h.slots[i] := null;
      assert h.slots[..] == s[i := null];
      h.rings, h.mem := rings - {i}, mem - Nodes(R);
    }
    return true, at;
  }

  /** So a deletion removes exactly the node it found if and only if the head has another key or is alone. */
  lemma RemovesOne<Id>(mem: Mem<Id>, R: seq<Id>, key: nat, at: nat, T: nat, i: nat)
    requires T > 0 && BucketOk(mem, R, T, i) && FirstAt(KeysOf(mem, R), key, at)
    ensures (if at > 0 then TakeOut(mem, R, at) else mem - Nodes(R)).Keys == mem.Keys - {R[at]}
      <==> KeyOf(mem, R[0]) != key || |R| == 1
  {
    assert KeysOf(mem, R)[0] == KeyOf(mem, R[0]);
    if at == 0 {
      assert R[0] in mem && R[|R| - 1] in mem && R[|R| - 1] in Nodes(R);
      if |R| == 1 { assert Nodes(R) == {R[0]}; }
    }
  }

  /** The least example: of two keys of one bucket the head's is deleted, and the other is lost with it. */
  method LosesNeighbour() returns (res: GetResult)
    ensures res == NotFound
  {
    var h := Neighbours();
    var deleted, node, prev;
    ghost var at;
    deleted, at := Delete(h, 1);
    res, node, prev, at := h.Search(2);
  }

  lemma SmallKeys()
    ensures 2 < Bit(32)
  {
    BitSum(27, 2);
  }

  /** A table of 2^3 buckets that holds the key 1. */
  method OneKey() returns (h: Table)
    ensures fresh(h) && fresh(h.slots) && fresh(h.counters) && fresh(h.active) && fresh(h.mem.Keys) && h.Ok()
    ensures h.n == 32 && h.k == 3 && 2 < Bit(h.n) && h.counters[0] == 0
    ensures forall x {:trigger h.mem[x]} :: x in h.mem ==> h.mem[x].key == 1
    ensures h.rings.Keys == {0} && KeysOf(h.mem, h.rings[0]) == [1] && h.rings[0][0] in h.mem
  {
    h := new Table(32, 3);
    SmallKeys();
    BucketBounds(1, h.T(), 0);
    var err;
    ghost var x, j;
    err, x, j := h.HashInsert(1, 7);
    assert h.rings[0] == [x];
  }

  /** ... and then the keys 1 and 2, both in bucket 0. */
  method Neighbours() returns (h: Table)
    ensures fresh(h) && fresh(h.slots) && fresh(h.counters) && fresh(h.active) && fresh(h.mem.Keys) && h.Ok()
    ensures h.n == 32 && h.k == 3 && 2 < Bit(h.n) && Bucket(1, h.T()) == Bucket(2, h.T()) == 0 && h.counters[0] == 0
    ensures forall x {:trigger h.mem[x]} :: x in h.mem ==> h.mem[x].key <= 2
    ensures 0 in h.rings && KeysOf(h.mem, h.rings[0]) == [1, 2]
  {
    h := OneKey();
    BucketBounds(1, h.T(), 0);
    BucketBounds(2, h.T(), 0);
    var err;
    ghost var y, j;
    ghost var m, R := h.mem, h.rings[0];
    assert m[R[0]].key == KeysOf(m, R)[0];
    err, y, j := h.HashInsert(2, 7);
    assert forall x {:trigger h.mem[x]} :: x in h.mem && x != y ==> x in m && SameNode(m, h.mem, x);
    assert h.rings[0] == [R[0], y];
  }
}
