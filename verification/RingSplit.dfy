/** hotring_rehash on values: two milestones on a ring, the cut between them, and the halves as buckets of a
    table twice as large. H is the number of keys in a bucket of the new table. */
module RingSplit {
  import opened RingOrder
  import opened RingHeap

  // ---------------------------------------------------------------- milestones

  /** x stands behind the head, and is the first of its key unless the head has that key. */
  ghost predicate MarkAt<Id>(mem: Mem<Id>, R: seq<Id>, x: Id, a: nat) {
    && 0 < a < |R| && R[a] == x
    && (KeyOf(mem, R[0]) != KeyOf(mem, x) ==> FirstAt(KeysOf(mem, R), KeyOf(mem, x), a))
  }

  ghost predicate MarkOk<Id>(mem: Mem<Id>, R: seq<Id>, x: Id) { exists a: nat :: MarkAt(mem, R, x, a) }

  lemma NewMark<Id>(mem: Mem<Id>, R: seq<Id>, j: nat, x: Id, c: Cell<Id>)
    requires j < |R| && R[j] in mem && R[0] in mem && x !in mem && x !in R && Stop(KeysOf(mem, R), j, c.key)
    ensures MarkOk(LinkAfter(mem, R[j], x, c), InsertAfter(R, j, x), x)
  {
    var m, S := LinkAfter(mem, R[j], x, c), InsertAfter(R, j, x);
    KeysInsert(mem, R, j, x, c);
    if KeyOf(mem, R[0]) != c.key { StopIsFirst(KeysOf(mem, R), j, c.key); }
    assert MarkAt(m, S, x, j + 1);
  }

  lemma MarkStays<Id>(mem: Mem<Id>, R: seq<Id>, j: nat, x: Id, c: Cell<Id>, y: Id)
    requires j < |R| && R[j] in mem && R[0] in mem && x !in mem && x !in R && y in mem
    requires MarkOk(mem, R, y) && mem[y].key != c.key
    ensures MarkOk(LinkAfter(mem, R[j], x, c), InsertAfter(R, j, x), y)
  {
    var m, S := LinkAfter(mem, R[j], x, c), InsertAfter(R, j, x);
    var a: nat :| MarkAt(mem, R, y, a);
    KeysInsert(mem, R, j, x, c);
    if KeyOf(mem, R[0]) != KeyOf(mem, y) { FirstStays(KeysOf(mem, R), a, KeyOf(mem, y), j, c.key); }
    assert MarkAt(m, S, y, if a <= j then a else a + 1);
  }

  // ---------------------------------------------------------------- the cut

  /** One store to a next pointer. */
  function Redirect<Id>(mem: Mem<Id>, p: Id, q: Id): Mem<Id>
    requires p in mem
  {
    mem[p := mem[p].(next := To(q))]
  }

  lemma TurnRing<Id>(mem: Mem<Id>, R: seq<Id>, a: nat)
    requires Ring(mem, R) && 0 < a < |R|
    ensures Ring(mem, Turn(R, a))
  {
    var S, n := Turn(R, a), |R| - a;
    assert forall i {:trigger S[i]} :: 0 <= i < |S| ==> S[i] == R[if i < n then a + i else i - n];
    forall i: nat | i < |S| ensures LinkAt(mem, S, i) {
      var o := if i < n then a + i else i - n;
      assert LinkAt(mem, R, o) && S[Succ(i, |S|)] == R[Succ(o, |R|)];
    }
  }

  lemma CutRing<Id>(mem: Mem<Id>, S: seq<Id>, c: nat)
    requires Ring(mem, S) && 0 < c < |S| && S[c - 1] in mem && S[|S| - 1] in mem
    ensures var m := Redirect(Redirect(mem, S[c - 1], S[0]), S[|S| - 1], S[c]); Ring(m, S[..c]) && Ring(m, S[c..])
  {
    var m := Redirect(Redirect(mem, S[c - 1], S[0]), S[|S| - 1], S[c]);
    forall i: nat | i < c ensures LinkAt(m, S[..c], i) { assert LinkAt(mem, S, i) && S[i] != S[|S| - 1]; }
    forall i: nat | i < |S| - c ensures LinkAt(m, S[c..], i) {
      assert LinkAt(mem, S, c + i) && S[c + i] != S[c - 1];
      if i + 1 < |S| - c { assert S[c + i] != S[|S| - 1]; }
    }
  }

  /** The two stores of the split, and the two rings they make, when the milestones are at a and b. */
  function SplitMem<Id>(mem: Mem<Id>, R: seq<Id>, a: nat, b: nat): Mem<Id>
    requires 0 < a < |R| && 0 < b < |R| && R[a - 1] in mem && R[b - 1] in mem
  {
    Redirect(Redirect(mem, R[b - 1], R[a]), R[a - 1], R[b])
  }

  function LowRing<Id>(R: seq<Id>, a: nat, b: nat): seq<Id>
    requires a <= |R| && b < |R|
  {
    Turn(R, a)[..Turned(a, b, |R|)]
  }

  function HighRing<Id>(R: seq<Id>, a: nat, b: nat): seq<Id>
    requires a <= |R| && b < |R|
  {
    Turn(R, a)[Turned(a, b, |R|)..]
  }

  /** S is a ring in key order from its head on, with keys of the block of H keys at x. */
  ghost predicate Piece<Id>(mem: Mem<Id>, S: seq<Id>, head: Id, x: nat, H: nat) {
    && Ring(mem, S) && S[0] == head && Sorted(KeysOf(mem, S))
    && forall a {:trigger S[a]} :: 0 <= a < |S| ==> S[a] in mem && x <= mem[S[a]].key < x + H
  }

  lemma HalfBucket<Id>(mem: Mem<Id>, S: seq<Id>, head: Id, H: nat, j: nat)
    requires H > 0 && Piece(mem, S, head, j * H, H)
    ensures BucketOk(mem, S, H, j)
  {
    SortedIsRotated(KeysOf(mem, S));
    forall a {:trigger S[a]} | 0 <= a < |S| ensures Bucket(mem[S[a]].key, H) == j { BucketBounds(mem[S[a]].key, H, j); }
  }

  /** The keys of bucket i of the old table, in terms of the first key x of its block. */
  lemma BlockKeys<Id>(mem: Mem<Id>, R: seq<Id>, H: nat, i: nat, x: nat)
    requires H > 0 && BucketOk(mem, R, 2 * H, i) && x == 2 * i * H
    ensures forall l {:trigger KeysOf(mem, R)[l]} :: 0 <= l < |R| ==> x <= KeysOf(mem, R)[l] < x + 2 * H
    ensures (2 * i + 1) * H == x + H
  {
    forall l {:trigger KeysOf(mem, R)[l]} | 0 <= l < |R| ensures x <= KeysOf(mem, R)[l] < x + 2 * H {
      assert R[l] in mem;
      BucketBounds(mem[R[l]].key, 2 * H, i);
    }
  }

  /** Seen from the lower milestone, a ring is in order, and the upper one separates the halves of the block. */
  lemma BlockOrder(t: seq<nat>, x: nat, H: nat, a: nat, b: nat)
    requires H > 0 && Rotated(t) && a > 0 && b > 0 && FirstAt(t, x, a) && FirstAt(t, x + H, b)
    requires forall l {:trigger t[l]} :: 0 <= l < |t| ==> x <= t[l] < x + 2 * H
    ensures Sorted(Turn(t, a)) && 0 < Turned(a, b, |t|)
    ensures forall l {:trigger Turn(t, a)[l]} :: 0 <= l < |t| ==> x <= Turn(t, a)[l] < x + 2 * H
    ensures forall l {:trigger Turn(t, a)[l]} :: 0 <= l < |t| ==> (Turn(t, a)[l] < x + H <==> l < Turned(a, b, |t|))
  {
    TurnSorted(t, x, a);
    CutAt(t, a, x + H, b);
    assert Turn(t, a)[0] == x;
  }

  lemma TurnEnds<Id>(R: seq<Id>, a: nat, b: nat)
    requires 0 < a < |R| && 0 < b < |R| && a != b
    ensures var S, c := Turn(R, a), Turned(a, b, |R|);
      c > 0 && S[0] == R[a] && S[c] == R[b] && S[c - 1] == R[b - 1] && S[|R| - 1] == R[a - 1]
  {
  }

  lemma TurnKeys<Id>(mem: Mem<Id>, m: Mem<Id>, R: seq<Id>, a: nat)
    requires a <= |R| && mem.Keys == m.Keys && SameData(mem, m, mem.Keys)
    requires forall l {:trigger R[l]} :: 0 <= l < |R| ==> R[l] in mem
    ensures forall l {:trigger Turn(R, a)[l]} :: 0 <= l < |R| ==>
      Turn(R, a)[l] in m && Turn(KeysOf(mem, R), a)[l] == KeyOf(m, Turn(R, a)[l])
  {
    forall l {:trigger R[l]} | 0 <= l < |R|
      ensures KeyOf(mem, R[l]) == KeyOf(m, R[l])
    {
      assert SameNode(mem, m, R[l]);
    }
  }

  /** The cut makes two rings of one: the keys below the middle milestone, and the others. */
  lemma SplitRing<Id>(mem: Mem<Id>, R: seq<Id>, H: nat, i: nat, a: nat, b: nat)
    requires H > 0 && BucketOk(mem, R, 2 * H, i) && a > 0 && b > 0
    requires FirstAt(KeysOf(mem, R), 2 * i * H, a) && FirstAt(KeysOf(mem, R), (2 * i + 1) * H, b)
    ensures BucketOk(SplitMem(mem, R, a, b), LowRing(R, a, b), H, 2 * i) && LowRing(R, a, b)[0] == R[a]
    ensures BucketOk(SplitMem(mem, R, a, b), HighRing(R, a, b), H, 2 * i + 1) && HighRing(R, a, b)[0] == R[b]
  {
    var x := 2 * i * H;
    BlockKeys(mem, R, H, i, x);
    BlockOrder(KeysOf(mem, R), x, H, a, b);
    SplitPieces(mem, R, x, H, a, b);
    var m := SplitMem(mem, R, a, b);
    HalfBucket(m, LowRing(R, a, b), R[a], H, 2 * i);
    HalfBucket(m, HighRing(R, a, b), R[b], H, 2 * i + 1);
  }

  lemma SplitPieces<Id>(mem: Mem<Id>, R: seq<Id>, x: nat, H: nat, a: nat, b: nat)
    requires Ring(mem, R) && 0 < a < |R| && 0 < b < |R| && a != b
    requires forall l {:trigger R[l]} :: 0 <= l < |R| ==> R[l] in mem
    requires var u, c := Turn(KeysOf(mem, R), a), Turned(a, b, |R|);
      Sorted(u) && c > 0 && forall l {:trigger u[l]} :: 0 <= l < |R| ==>
        x <= u[l] < x + 2 * H && (u[l] < x + H <==> l < c)
    ensures Piece(SplitMem(mem, R, a, b), LowRing(R, a, b), R[a], x, H)
    ensures Piece(SplitMem(mem, R, a, b), HighRing(R, a, b), R[b], x + H, H)
  {
    TurnRing(mem, R, a);
    TurnEnds(R, a, b);
    CutRing(mem, Turn(R, a), Turned(a, b, |R|));
    TurnKeys(mem, SplitMem(mem, R, a, b), R, a);
    SplitHalves(SplitMem(mem, R, a, b), Turn(R, a), Turn(KeysOf(mem, R), a), x, H, Turned(a, b, |R|));
  }

  /** Keys of the two pieces of a sorted ring. */
  lemma SplitHalves<Id>(m: Mem<Id>, S: seq<Id>, u: seq<nat>, x: nat, H: nat, c: nat)
    requires |u| == |S| && c < |S| && Sorted(u)
    requires forall l {:trigger S[l]} :: 0 <= l < |S| ==> S[l] in m && u[l] == KeyOf(m, S[l])
    requires forall l {:trigger u[l]} :: 0 <= l < |S| ==> x <= u[l] < x + 2 * H && (u[l] < x + H <==> l < c)
    ensures Sorted(KeysOf(m, S[..c])) && Sorted(KeysOf(m, S[c..]))
    ensures forall l {:trigger S[..c][l]} :: 0 <= l < c ==> S[..c][l] in m && x <= m[S[..c][l]].key < x + H
    ensures forall l {:trigger S[c..][l]} :: 0 <= l < |S| - c ==>
      S[c..][l] in m && x + H <= m[S[c..][l]].key < x + H + H
  {
    assert KeysOf(m, S[..c]) == u[..c];
    assert KeysOf(m, S[c..]) == u[c..];
    assert forall l {:trigger S[c..][l]} :: 0 <= l < |S| - c ==> S[c..][l] == S[c + l] && u[c + l] >= x;
  }

  // ---------------------------------------------------------------- the whole table

  /** The buckets below c are split into rs, the others are as before; rs starts at the milestones s. */
  ghost predicate SplitOk<Id>(mem: Mem<Id>, rings: Rings<Id>, rs: Rings<Id>, H: nat, c: nat)
    requires H > 0
  {
    && (forall j {:trigger j in rs} :: j in rs ==> j < 2 * c)
    && (forall j {:trigger BucketOk(mem, rs[j], H, j)} :: j in rs ==> BucketOk(mem, rs[j], H, j))
    && (forall x {:trigger OnRing(mem, rs, H, x)} :: x in mem && Bucket(mem[x].key, H) < 2 * c ==>
      OnRing(mem, rs, H, x))
    && (forall i {:trigger BucketOk(mem, rings[i], 2 * H, i)} :: i in rings && i >= c ==>
      BucketOk(mem, rings[i], 2 * H, i))
    && (forall x {:trigger OnRing(mem, rings, 2 * H, x)} :: x in mem ==> OnRing(mem, rings, 2 * H, x))
  }

  function SplitRings<Id>(rings: Rings<Id>, rs: Rings<Id>, c: nat, a: nat, b: nat): Rings<Id>
    requires c in rings && a <= |rings[c]| && b < |rings[c]|
  {
    rs[2 * c := LowRing(rings[c], a, b)][2 * c + 1 := HighRing(rings[c], a, b)]
  }

  lemma SplitSkip<Id>(mem: Mem<Id>, rings: Rings<Id>, rs: Rings<Id>, H: nat, c: nat)
    requires H > 0 && SplitOk(mem, rings, rs, H, c) && c !in rings
    ensures SplitOk(mem, rings, rs, H, c + 1)
  {
    forall x {:trigger OnRing(mem, rs, H, x)} | x in mem && Bucket(mem[x].key, H) < 2 * (c + 1)
      ensures OnRing(mem, rs, H, x)
    {
      assert OnRing(mem, rings, 2 * H, x);
      BucketHalves(mem[x].key, H);
    }
  }

  lemma SplitStep<Id>(mem: Mem<Id>, rings: Rings<Id>, rs: Rings<Id>, H: nat, c: nat, a: nat, b: nat)
    requires H > 0 && SplitOk(mem, rings, rs, H, c) && c in rings && BucketOk(mem, rings[c], 2 * H, c) && a > 0 && b > 0
    requires FirstAt(KeysOf(mem, rings[c]), 2 * c * H, a) && FirstAt(KeysOf(mem, rings[c]), (2 * c + 1) * H, b)
    ensures SplitOk(SplitMem(mem, rings[c], a, b), rings, SplitRings(rings, rs, c, a, b), H, c + 1)
  {
    var R := rings[c];
    var m, rs' := SplitMem(mem, R, a, b), SplitRings(rings, rs, c, a, b);
    SplitRing(mem, R, H, c, a, b);
    forall j {:trigger BucketOk(m, rs'[j], H, j)} | j in rs' ensures BucketOk(m, rs'[j], H, j) {
      if j < 2 * c {
        assert BucketOk(mem, rs[j], H, j);
        forall l {:trigger rs[j][l]} | 0 <= l < |rs[j]| ensures rs[j][l] in m && m[rs[j][l]] == mem[rs[j][l]] {
          BucketHalves(mem[rs[j][l]].key, H);
        }
        SameRing(mem, m, rs[j], H, j);
      }
    }
    forall i {:trigger BucketOk(m, rings[i], 2 * H, i)} | i in rings && i >= c + 1
      ensures BucketOk(m, rings[i], 2 * H, i)
    {
      assert BucketOk(mem, rings[i], 2 * H, i);
      SameRing(mem, m, rings[i], 2 * H, i);
    }
    forall x {:trigger OnRing(m, rings, 2 * H, x)} | x in m ensures OnRing(m, rings, 2 * H, x) {
      assert OnRing(mem, rings, 2 * H, x);
    }
    forall x {:trigger OnRing(m, rs', H, x)} | x in m && Bucket(m[x].key, H) < 2 * (c + 1)
      ensures OnRing(m, rs', H, x)
    {
      BucketHalves(m[x].key, H);
      if Bucket(m[x].key, H) < 2 * c {
        assert OnRing(mem, rs, H, x);
      } else {
        assert OnRing(mem, rings, 2 * H, x);
        InHalf(R, a, b, x);
      }
    }
  }

  lemma InHalf<Id>(R: seq<Id>, a: nat, b: nat, x: Id)
    requires a <= |R| && b < |R| && x in R
    ensures x in LowRing(R, a, b) || x in HighRing(R, a, b)
  {
    var l :| 0 <= l < |R| && R[l] == x;
    var S, o, c := Turn(R, a), if l >= a then l - a else l + (|R| - a), Turned(a, b, |R|);
    assert S[o] == x;
    if o < c { assert S[..c][o] == x; } else { assert S[c..][o - c] == x; }
  }

  /** When every bucket is split, the pieces are a table for the new bucket size. */
  lemma SplitDone<Id>(mem: Mem<Id>, rings: Rings<Id>, rs: Rings<Id>, H: nat, c: nat)
    requires H > 0 && SplitOk(mem, rings, rs, H, c) && forall i :: i in rings ==> i < c
    ensures TableOk(mem, rs, H)
  {
    forall x {:trigger OnRing(mem, rs, H, x)} | x in mem ensures OnRing(mem, rs, H, x) {
      assert OnRing(mem, rings, 2 * H, x);
      BucketHalves(mem[x].key, H);
    }
  }
}
