/** The nodes of a HotRing table as a map from node to fields, and its buckets as sequences from the head. */
module RingHeap {
  import opened RingOrder

  /** Poison stands for the next pointer of a node that list_del took off its ring. */
  datatype Link<Id> = Poison | To(node: Id)
  datatype Cell<Id> = Cell(next: Link<Id>, key: nat, tag: nat, value: nat)
  type Mem<Id> = map<Id, Cell<Id>>
  type Rings<Id> = map<nat, seq<Id>>

  // ---------------------------------------------------------------- keys, buckets and tags

  /** The bucket of a key in a table whose buckets take T = 1 << (n - k) consecutive keys each. */
  function Bucket(key: nat, T: nat): nat
    requires T > 0
  {
    key / T
  }

  lemma BucketBounds(key: nat, T: nat, i: nat)
    requires T > 0
    ensures Bucket(key, T) == i <==> i * T <= key < i * T + T
  {
    var q, r := key / T, key % T;
    assert key == q * T + r;
    if q < i { assert (q + 1) * T <= i * T; }
    if i < q { assert (i + 1) * T <= q * T; }
  }

  /** Doubling the table splits each bucket into its lower and its upper half. */
  lemma BucketHalves(key: nat, H: nat)
    requires H > 0
    ensures Bucket(key, 2 * H) == Bucket(key, H) / 2
    ensures key % H == 0 <==> key == Bucket(key, H) * H
  {
    var j := Bucket(key, H);
    BucketBounds(key, H, j);
    assert key == j * H + key % H;
    assert j == 2 * (j / 2) + j % 2;
    assert j / 2 * (2 * H) == 2 * (j / 2) * H;
    assert j * H == 2 * (j / 2) * H + j % 2 * H;
    BucketBounds(key, 2 * H, j / 2);
  }

  // ---------------------------------------------------------------- rings

  function Succ(i: nat, n: nat): nat { if i + 1 == n then 0 else i + 1 }

  ghost predicate Distinct<Id>(R: seq<Id>) { forall i, j {:trigger R[i], R[j]} :: 0 <= i < j < |R| ==> R[i] != R[j] }

  ghost predicate LinkAt<Id>(mem: Mem<Id>, R: seq<Id>, i: nat)
    requires i < |R|
  {
    R[i] in mem && mem[R[i]].next == To(R[Succ(i, |R|)])
  }

  /** R is the cycle of next links through its nodes, each once, from R[0]. */
  ghost predicate Ring<Id>(mem: Mem<Id>, R: seq<Id>) {
    |R| > 0 && Distinct(R) && forall i: nat {:trigger LinkAt(mem, R, i)} :: i < |R| ==> LinkAt(mem, R, i)
  }

  function KeyOf<Id>(mem: Mem<Id>, x: Id): nat { if x in mem then mem[x].key else 0 }

  function TagIn<Id>(mem: Mem<Id>, x: Id): nat { if x in mem then mem[x].tag else 0 }

  ghost function KeysOf<Id>(mem: Mem<Id>, R: seq<Id>): (t: seq<nat>)
    ensures |t| == |R|
  {
    seq(|R|, i requires 0 <= i < |R| => KeyOf(mem, R[i]))
  }

  ghost function TagsOf<Id>(mem: Mem<Id>, R: seq<Id>): (t: seq<nat>)
    ensures |t| == |R|
  {
    seq(|R|, i requires 0 <= i < |R| => TagIn(mem, R[i]))
  }

  /** R is the ring of bucket i: all its keys belong there, and it is a rotation of its key order. */
  ghost predicate BucketOk<Id>(mem: Mem<Id>, R: seq<Id>, T: nat, i: nat)
    requires T > 0
  {
    && Ring(mem, R)
    && (forall a {:trigger R[a]} :: 0 <= a < |R| ==> R[a] in mem && Bucket(mem[R[a]].key, T) == i)
    && Rotated(KeysOf(mem, R))
  }

  ghost predicate OnRing<Id>(mem: Mem<Id>, rings: Rings<Id>, T: nat, x: Id)
    requires T > 0 && x in mem
  {
    var i := Bucket(mem[x].key, T);
    i in rings && x in rings[i]
  }

  /** The rings are those of their buckets, and every node is on the ring of its bucket. */
  ghost predicate TableOk<Id>(mem: Mem<Id>, rings: Rings<Id>, T: nat)
    requires T > 0
  {
    && (forall i {:trigger BucketOk(mem, rings[i], T, i)} :: i in rings ==> BucketOk(mem, rings[i], T, i))
    && (forall x {:trigger OnRing(mem, rings, T, x)} :: x in mem ==> OnRing(mem, rings, T, x))
  }

  ghost predicate TagAt<Id>(mem: Mem<Id>, T: nat, x: Id)
    requires T > 0 && x in mem
  {
    mem[x].key == Bucket(mem[x].key, T) * T + mem[x].tag
  }

  /** Tags are what is left of a key in its bucket. */
  ghost predicate TagsOk<Id>(mem: Mem<Id>, T: nat)
    requires T > 0
  {
    forall x {:trigger TagAt(mem, T, x)} :: x in mem ==> TagAt(mem, T, x)
  }

  ghost predicate SameNode<Id>(mem: Mem<Id>, mem': Mem<Id>, x: Id) {
    x in mem && x in mem' && mem'[x].key == mem[x].key && mem'[x].tag == mem[x].tag && mem'[x].value == mem[x].value
  }

  /** The nodes of K keep their key, tag and value. */
  ghost predicate SameData<Id>(mem: Mem<Id>, mem': Mem<Id>, K: set<Id>) {
    forall x {:trigger SameNode(mem, mem', x)} :: x in K ==> SameNode(mem, mem', x)
  }

  lemma SameDataTrans<Id>(m0: Mem<Id>, m1: Mem<Id>, m2: Mem<Id>, K: set<Id>, L: set<Id>)
    requires SameData(m0, m1, K) && SameData(m1, m2, L) && K <= L
    ensures SameData(m0, m2, K)
  {
    forall x {:trigger SameNode(m0, m2, x)} | x in K ensures SameNode(m0, m2, x) {
      assert SameNode(m0, m1, x) && SameNode(m1, m2, x);
    }
  }

  lemma SameRing<Id>(mem: Mem<Id>, mem': Mem<Id>, R: seq<Id>, T: nat, i: nat)
    requires T > 0 && BucketOk(mem, R, T, i)
    requires forall a {:trigger R[a]} :: 0 <= a < |R| ==> R[a] in mem' && mem'[R[a]] == mem[R[a]]
    ensures BucketOk(mem', R, T, i)
  {
    forall a: nat | a < |R| ensures LinkAt(mem', R, a) { assert LinkAt(mem, R, a); }
    assert KeysOf(mem', R) == KeysOf(mem, R);
  }

  // ---------------------------------------------------------------- adding a node

  /** list_add: x, with fields c, goes between prev and its successor. */
  function LinkAfter<Id>(mem: Mem<Id>, prev: Id, x: Id, c: Cell<Id>): Mem<Id>
    requires prev in mem
  {
    mem[x := c.(next := mem[prev].next)][prev := mem[prev].(next := To(x))]
  }

  lemma DistinctInsert<Id>(R: seq<Id>, j: nat, x: Id)
    requires Distinct(R) && j < |R| && x !in R
    ensures Distinct(InsertAfter(R, j, x))
  {
    var S := InsertAfter(R, j, x);
    forall a, b {:trigger S[a], S[b]} | 0 <= a < b < |S| ensures S[a] != S[b] {
      assert S[a] == if a <= j then R[a] else if a == j + 1 then x else R[a - 1];
      assert S[b] == if b <= j then R[b] else if b == j + 1 then x else R[b - 1];
    }
  }

  lemma LinkRing<Id>(mem: Mem<Id>, R: seq<Id>, j: nat, x: Id, c: Cell<Id>)
    requires Ring(mem, R) && j < |R| && x !in mem && R[j] in mem && x !in R
    ensures Ring(LinkAfter(mem, R[j], x, c), InsertAfter(R, j, x))
  {
    var m, S := LinkAfter(mem, R[j], x, c), InsertAfter(R, j, x);
    DistinctInsert(R, j, x);
    forall i: nat | i < |S| ensures LinkAt(m, S, i) {
      if i == j || i == j + 1 {
        assert LinkAt(mem, R, j);
      } else {
        var o := if i < j then i else i - 1;
        assert LinkAt(mem, R, o) && S[i] == R[o] && R[o] != R[j] && R[o] != x;
        assert S[Succ(i, |S|)] == R[Succ(o, |R|)];
      }
    }
  }

  lemma KeysInsert<Id>(mem: Mem<Id>, R: seq<Id>, j: nat, x: Id, c: Cell<Id>)
    requires j < |R| && R[j] in mem && x !in mem && x !in R
    ensures KeysOf(LinkAfter(mem, R[j], x, c), InsertAfter(R, j, x)) == InsertAfter(KeysOf(mem, R), j, c.key)
  {
  }

  /** __hash_create on bucket i: a ring of its own for x, or x behind position j of the ring there. */
  function PutMem<Id>(mem: Mem<Id>, rings: Rings<Id>, i: nat, j: nat, x: Id, c: Cell<Id>): Mem<Id>
    requires i in rings ==> j < |rings[i]| && rings[i][j] in mem
  {
    if i in rings then LinkAfter(mem, rings[i][j], x, c) else mem[x := c.(next := To(x))]
  }

  function PutRing<Id>(rings: Rings<Id>, i: nat, j: nat, x: Id): seq<Id>
    requires i in rings ==> j < |rings[i]|
  {
    if i in rings then InsertAfter(rings[i], j, x) else [x]
  }

  lemma PutBucket<Id>(mem: Mem<Id>, rings: Rings<Id>, T: nat, i: nat, j: nat, x: Id, c: Cell<Id>)
    requires T > 0 && x !in mem && Bucket(c.key, T) == i
    requires i in rings ==> BucketOk(mem, rings[i], T, i) && Stop(KeysOf(mem, rings[i]), j, c.key)
    ensures BucketOk(PutMem(mem, rings, i, j, x, c), PutRing(rings, i, j, x), T, i)
  {
    var m, S := PutMem(mem, rings, i, j, x, c), PutRing(rings, i, j, x);
    if i in rings {
      var R := rings[i];
      LinkRing(mem, R, j, x, c);
      KeysInsert(mem, R, j, x, c);
      InsertKeeps(KeysOf(mem, R), j, c.key);
      forall a {:trigger S[a]} | 0 <= a < |S| ensures S[a] in m && Bucket(m[S[a]].key, T) == i {
        assert S[a] == if a <= j then R[a] else if a == j + 1 then x else R[a - 1];
      }
    } else {
      assert Rot(KeysOf(m, S), 0);
    }
  }

  /** Inserting keeps the table: only the ring of the key changes. */
  lemma PutOk<Id>(mem: Mem<Id>, rings: Rings<Id>, T: nat, i: nat, j: nat, x: Id, c: Cell<Id>)
    requires T > 0 && TableOk(mem, rings, T) && x !in mem && Bucket(c.key, T) == i
    requires i in rings ==> BucketOk(mem, rings[i], T, i) && Stop(KeysOf(mem, rings[i]), j, c.key)
    ensures TableOk(PutMem(mem, rings, i, j, x, c), rings[i := PutRing(rings, i, j, x)], T)
    ensures TagsOk(mem, T) && c.key == i * T + c.tag ==> TagsOk(PutMem(mem, rings, i, j, x, c), T)
  {
    var m, S := PutMem(mem, rings, i, j, x, c), PutRing(rings, i, j, x);
    var rs := rings[i := S];
    PutBucket(mem, rings, T, i, j, x, c);
    forall l {:trigger BucketOk(m, rs[l], T, l)} | l in rs ensures BucketOk(m, rs[l], T, l) {
      if l != i { assert BucketOk(mem, rings[l], T, l); SameRing(mem, m, rings[l], T, l); }
    }
    forall y {:trigger OnRing(m, rs, T, y)} | y in m ensures OnRing(m, rs, T, y) {
      if y == x { assert S[if i in rings then j + 1 else 0] == x; } else {
        assert OnRing(mem, rings, T, y);
        if Bucket(m[y].key, T) == i {
          var a :| 0 <= a < |rings[i]| && rings[i][a] == y;
          assert S[if a <= j then a else a + 1] == y;
        }
      }
    }
    if TagsOk(mem, T) && c.key == i * T + c.tag {
      forall y {:trigger TagAt(m, T, y)} | y in m ensures TagAt(m, T, y) { assert y != x ==> TagAt(mem, T, y); }
    }
  }

  /** Inside a bucket the walk may compare tags for keys. */
  lemma TagStop<Id>(mem: Mem<Id>, R: seq<Id>, T: nat, i: nat, j: nat, key: nat, tag: nat)
    requires T > 0 && BucketOk(mem, R, T, i) && TagsOk(mem, T) && key == i * T + tag
    requires Stop(TagsOf(mem, R), j, tag)
    ensures Stop(KeysOf(mem, R), j, key)
  {
    var t, u := TagsOf(mem, R), KeysOf(mem, R);
    forall a {:trigger t[a]} {:trigger u[a]} | 0 <= a < |R|
      ensures u[a] == t[a] + i * T
    {
      assert R[a] in mem && TagAt(mem, T, R[a]);
    }
    StopShift(t, u, i * T, j, tag);
  }

  // ---------------------------------------------------------------- taking the head off

  /** hotring_delete_head: the last node is linked past the head, and the head is gone. */
  function Behead<Id>(mem: Mem<Id>, R: seq<Id>): Mem<Id>
    requires |R| > 0 && R[|R| - 1] in mem
  {
    if |R| == 1 then mem - {R[0]} else mem[R[|R| - 1] := mem[R[|R| - 1]].(next := To(R[1]))] - {R[0]}
  }

  function BeheadRings<Id>(rings: Rings<Id>, i: nat): Rings<Id>
    requires i in rings && |rings[i]| > 0
  {
    if |rings[i]| == 1 then rings - {i} else rings[i := rings[i][1..]]
  }

  lemma BeheadBucket<Id>(mem: Mem<Id>, R: seq<Id>, T: nat, i: nat)
    requires T > 0 && BucketOk(mem, R, T, i) && |R| > 1
    ensures BucketOk(Behead(mem, R), R[1..], T, i)
  {
    var m, S := Behead(mem, R), R[1..];
    assert forall a {:trigger S[a]} :: 0 <= a < |S| ==> S[a] == R[a + 1] && S[a] != R[0];
    forall a: nat | a < |S| ensures LinkAt(m, S, a) { assert LinkAt(mem, R, a + 1); }
    Beheaded(KeysOf(mem, R));
    assert KeysOf(m, S) == KeysOf(mem, R)[1..];
  }

  lemma BeheadOk<Id>(mem: Mem<Id>, rings: Rings<Id>, T: nat, i: nat)
    requires T > 0 && TableOk(mem, rings, T) && i in rings && BucketOk(mem, rings[i], T, i)
    ensures TableOk(Behead(mem, rings[i]), BeheadRings(rings, i), T)
  {
    var R := rings[i];
    var m, rs := Behead(mem, R), BeheadRings(rings, i);
    if |R| > 1 { BeheadBucket(mem, R, T, i); }
    forall l {:trigger BucketOk(m, rs[l], T, l)} | l in rs ensures BucketOk(m, rs[l], T, l) {
      if l != i { assert BucketOk(mem, rings[l], T, l); SameRing(mem, m, rings[l], T, l); }
    }
    forall y {:trigger OnRing(m, rs, T, y)} | y in m ensures OnRing(m, rs, T, y) {
      assert OnRing(mem, rings, T, y);
      if Bucket(mem[y].key, T) == i {
        var a :| 0 <= a < |R| && R[a] == y;
        assert a > 0 && R[1..][a - 1] == y;
      }
    }
  }
}
