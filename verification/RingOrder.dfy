/** Rotations of sorted sequences: the order of a HotRing bucket as seen from its movable head. */
module RingOrder {
  /** t is a sorted sequence rotated so that its least element stands at p (anywhere if p is 0 or |t|). */
  ghost predicate Rot(t: seq<nat>, p: nat) {
    && p <= |t|
    && (forall i, j :: 0 <= i < j < p ==> t[i] <= t[j])
    && (forall i, j :: p <= i < j < |t| ==> t[i] <= t[j])
    && (forall i, j :: 0 <= i < p <= j < |t| ==> t[j] <= t[i])
  }

  ghost predicate Rotated(t: seq<nat>) { exists p :: Rot(t, p) }

  /** The position test of __hash_create between neighbours a and b. */
  predicate Fits(a: nat, b: nat, x: nat) { (a > b && (x <= b || a < x)) || (a < x && x <= b) }

  predicate FitsAt(t: seq<nat>, i: nat, x: nat)
    requires i + 1 < |t|
  {
    Fits(t[i], t[i + 1], x)
  }

  /** The three early exits of __hash_get between neighbours a and b. */
  predicate Passed(a: nat, b: nat, x: nat) { (a < x && b > x) || (x < b && b < a) || (b < a && a < x) }

  function InsertAfter<T>(t: seq<T>, j: nat, x: T): (r: seq<T>)
    requires j < |t|
    ensures |r| == |t| + 1
  {
    t[..j + 1] + [x] + t[j + 1..]
  }

  lemma {:induction false} Crossing(t: seq<nat>, a: nat, b: nat, x: nat)
    requires a <= b < |t| && t[a] < x <= t[b]
    ensures exists i: nat {:trigger FitsAt(t, i, x)} :: a <= i < b && FitsAt(t, i, x)
    decreases b - a
  {
    if t[a + 1] < x { Crossing(t, a + 1, b, x); } else { assert FitsAt(t, a, x); }
  }

  /** Which of two positions comes first in sorted order, when the least element stands at p. */
  ghost predicate Precedes(p: nat, i: nat, j: nat) { if i < p <= j then false else if j < p <= i then true else i < j }

  lemma RotByOrder(t: seq<nat>, p: nat)
    requires p <= |t| && forall i, j :: 0 <= i < |t| && 0 <= j < |t| && Precedes(p, i, j) ==> t[i] <= t[j]
    ensures Rot(t, p)
  {
    forall i, j | 0 <= i < j < p ensures t[i] <= t[j] { assert Precedes(p, i, j); }
    forall i, j | p <= i < j < |t| ensures t[i] <= t[j] { assert Precedes(p, i, j); }
    forall i, j | 0 <= i < p <= j < |t| ensures t[j] <= t[i] { assert Precedes(p, j, i); }
  }

  lemma RotOrder(t: seq<nat>, p: nat, i: nat, j: nat)
    requires Rot(t, p) && i < |t| && j < |t| && Precedes(p, i, j)
    ensures t[i] <= t[j]
  {
  }

  lemma InsertInside(t: seq<nat>, p: nat, j: nat, x: nat) returns (p': nat)
    requires Rot(t, p) && j + 1 < |t| && FitsAt(t, j, x)
    ensures Rot(InsertAfter(t, j, x), p')
  {
    var r := InsertAfter(t, j, x);
    if t[j] > t[j + 1] {
      assert j + 1 == p;
      p' := if x <= t[j + 1] then p else p + 1;
    } else {
      assert j + 1 != p;
      p' := if j + 1 < p then p + 1 else p;
    }
    forall a, b | 0 <= a < |r| && 0 <= b < |r| && Precedes(p', a, b) ensures r[a] <= r[b] {
      var oa, ob := if a <= j then a else a - 1, if b <= j then b else b - 1;
      if a == j + 1 {
        assert r[b] == t[ob];
        if t[j] <= t[j + 1] || x <= t[j + 1] { if ob != j + 1 { RotOrder(t, p, j + 1, ob); } }
      } else if b == j + 1 {
        assert r[a] == t[oa];
        if t[j] <= t[j + 1] || x > t[j + 1] { if oa != j { RotOrder(t, p, oa, j); } }
      } else {
        assert r[a] == t[oa] && r[b] == t[ob];
        RotOrder(t, p, oa, ob);
      }
    }
    RotByOrder(r, p');
  }

  lemma InsertLast(t: seq<nat>, p: nat, x: nat) returns (p': nat)
    requires Rot(t, p) && |t| > 0 && forall i: nat {:trigger FitsAt(t, i, x)} :: i + 1 < |t| ==> !FitsAt(t, i, x)
    ensures Rot(InsertAfter(t, |t| - 1, x), p')
  {
    var n := |t|;
    var r := InsertAfter(t, n - 1, x);
    assert forall i :: 0 <= i < |r| ==> r[i] == if i < n then t[i] else x;
    if 0 < p < n && t[p - 1] > t[p] {
      assert !FitsAt(t, p - 1, x);
      if t[n - 1] >= x { Crossing(t, p, n - 1, x); }
      if t[0] < x { Crossing(t, 0, p - 1, x); }
      p' := p;
    } else {
      assert forall i, j :: 0 <= i < j < n ==> t[i] <= t[j] by {
        if 0 < p < n { assert forall i :: 0 <= i < n ==> t[i] == t[p]; }
      }
      if x <= t[0] { p' := n; } else {
        if t[n - 1] >= x { Crossing(t, 0, n - 1, x); }
        p' := 0;
      }
    }
  }

  /** The walk of __hash_create for x stops behind position j: at the first place that fits, or at the end. */
  ghost predicate Stop(t: seq<nat>, j: nat, x: nat) {
    j < |t| && (j + 1 < |t| ==> FitsAt(t, j, x)) && forall i: nat {:trigger FitsAt(t, i, x)} :: i < j ==>
      !FitsAt(t, i, x)
  }

  /** Insertion where the walk of __hash_create stops keeps a rotation of a sorted sequence one. */
  lemma InsertKeeps(t: seq<nat>, j: nat, x: nat)
    requires Rotated(t) && Stop(t, j, x)
    ensures Rotated(InsertAfter(t, j, x))
  {
    var p: nat :| Rot(t, p);
    if j + 1 < |t| { var p' := InsertInside(t, p, j, x); } else { var p' := InsertLast(t, p, x); }
  }

  /** Where an early exit of __hash_get fires, the key is nowhere on the ring. */
  lemma PassedMeansAbsent(t: seq<nat>, j: nat, x: nat)
    requires Rotated(t) && j + 1 < |t| && Passed(t[j], t[j + 1], x)
    ensures x !in t
  {
    var p: nat :| Rot(t, p);
  }

  /** Adding the same number to every key moves no stop. */
  lemma StopShift(t: seq<nat>, u: seq<nat>, d: nat, j: nat, x: nat)
    requires |t| == |u| && forall i {:trigger t[i]} {:trigger u[i]} :: 0 <= i < |t| ==> u[i] == t[i] + d
    requires Stop(t, j, x)
    ensures Stop(u, j, x + d)
  {
    forall i: nat {:trigger FitsAt(u, i, x + d)} | i < j ensures !FitsAt(u, i, x + d) { assert !FitsAt(t, i, x); }
  }

  // ---------------------------------------------------------------- where a key stands first

  ghost predicate FirstAt(t: seq<nat>, x: nat, a: nat) {
    a < |t| && t[a] == x && forall b {:trigger t[b]} :: 0 <= b < a ==> t[b] != x
  }

  /** A key inserted where the walk stops is the first of its kind from the head, unless the head is of its kind. */
  lemma {:induction false} StopIsFirst(t: seq<nat>, j: nat, x: nat)
    requires Stop(t, j, x) && t[0] != x
    ensures FirstAt(InsertAfter(t, j, x), x, j + 1)
  {
    NotBefore(t, j, x, j);
  }

  lemma {:induction false} NotBefore(t: seq<nat>, j: nat, x: nat, i: nat)
    requires Stop(t, j, x) && t[0] != x && i <= j
    ensures forall b {:trigger t[b]} :: 0 <= b <= i ==> t[b] != x
  {
    if i > 0 {
      NotBefore(t, j, x, i - 1);
      assert !FitsAt(t, i - 1, x);
    }
  }

  lemma FirstStays(t: seq<nat>, a: nat, y: nat, j: nat, x: nat)
    requires FirstAt(t, y, a) && j < |t| && x != y
    ensures FirstAt(InsertAfter(t, j, x), y, if a <= j then a else a + 1)
  {
    var r := InsertAfter(t, j, x);
    assert forall b {:trigger r[b]} :: 0 <= b < |r| ==>
      r[b] == if b <= j then t[b] else if b == j + 1 then x else t[b - 1];
  }

  // ---------------------------------------------------------------- turning and cutting

  function Turn<T>(t: seq<T>, a: nat): (r: seq<T>)
    requires a <= |t|
    ensures |r| == |t|
  {
    t[a..] + t[..a]
  }

  /** A rotation of a rotation of a sorted sequence is one. */
  lemma TurnRotated(t: seq<nat>, a: nat)
    requires Rotated(t) && a <= |t|
    ensures Rotated(Turn(t, a))
  {
    var p: nat :| Rot(t, p);
    var r, n := Turn(t, a), |t| - a;
    var p' := if a <= p then p - a else p + n;
    forall i, j | 0 <= i < |r| && 0 <= j < |r| && Precedes(p', i, j) ensures r[i] <= r[j] {
      var oi, oj := if i < n then a + i else i - n, if j < n then a + j else j - n;
      assert r[i] == t[oi] && r[j] == t[oj];
      if Precedes(p, oi, oj) { RotOrder(t, p, oi, oj); }
    }
    RotByOrder(r, p');
  }

  ghost predicate Sorted(t: seq<nat>) { forall i, j {:trigger t[i], t[j]} :: 0 <= i < j < |t| ==> t[i] <= t[j] }

  lemma SortedIsRotated(t: seq<nat>)
    requires Sorted(t)
    ensures Rotated(t)
  {
    assert Rot(t, 0);
  }

  lemma TurnPoint(t: seq<nat>, x: nat, a: nat, p: nat)
    requires Rot(t, p) && a > 0 && FirstAt(t, x, a) && forall i {:trigger t[i]} :: 0 <= i < |t| ==> x <= t[i]
    ensures p == a
  {
    RotLeast(t, p);
  }

  lemma RotLeast(t: seq<nat>, p: nat)
    requires Rot(t, p)
    ensures p < |t| ==> forall i {:trigger t[i]} :: 0 <= i < |t| ==> t[p] <= t[i]
    ensures p > 0 ==> forall i {:trigger t[i]} :: 0 <= i < p ==> t[0] <= t[i]
  {
  }

  /** Seen from the first of the least keys, a ring is in order. */
  lemma TurnSorted(t: seq<nat>, x: nat, a: nat)
    requires Rotated(t) && a > 0 && FirstAt(t, x, a) && forall i {:trigger t[i]} :: 0 <= i < |t| ==> x <= t[i]
    ensures Sorted(Turn(t, a))
  {
    var p: nat :| Rot(t, p);
    TurnPoint(t, x, a, p);
    var r := Turn(t, a);
    forall i, j {:trigger r[i], r[j]} | 0 <= i < j < |t| ensures r[i] <= r[j] {
      var n := |t| - a;
      assert r[i] == if i < n then t[a + i] else t[i - n];
      assert r[j] == if j < n then t[a + j] else t[j - n];
    }
  }

  /** Where position b of t stands in Turn(t, a). */
  function Turned(a: nat, b: nat, n: nat): (c: nat)
    requires a <= n && b < n
    ensures c < n
  {
    if b >= a then b - a else b + (n - a)
  }

  /** The first y of a ring cuts its sorted turn into the keys below y and the others. */
  lemma CutAt(t: seq<nat>, a: nat, y: nat, b: nat)
    requires 0 < a < |t| && Sorted(Turn(t, a)) && b > 0 && FirstAt(t, y, b)
    ensures forall i {:trigger Turn(t, a)[i]} :: 0 <= i < |t| ==> (Turn(t, a)[i] < y <==> i < Turned(a, b, |t|))
    ensures Turn(t, a)[Turned(a, b, |t|)] == y
  {
    var r, c, n := Turn(t, a), Turned(a, b, |t|), |t| - a;
    assert r[c] == y;
    assert r[n] == t[0] != y;
    forall i {:trigger r[i]} | 0 <= i < |t| ensures r[i] < y <==> i < c {
      if i < c {
        assert r[i] <= r[c];
        if b < a && i < n { assert r[i] <= r[n] <= r[c]; } else { assert r[i] == t[if i < n then a + i else i - n]; }
      } else if i > c {
        assert r[c] <= r[i];
      }
    }
  }

  lemma Beheaded(t: seq<nat>)
    requires Rotated(t) && |t| > 1
    ensures Rotated(t[1..])
  {
    var p: nat :| Rot(t, p);
    assert Rot(t[1..], if p == 0 then 0 else p - 1);
  }

  function RemoveAt<T>(t: seq<T>, a: nat): (r: seq<T>)
    requires a < |t|
    ensures |r| == |t| - 1
  {
    t[..a] + t[a + 1..]
  }

  /** Any element may leave a rotation of a sorted sequence. */
  lemma RemoveKeeps(t: seq<nat>, a: nat)
    requires Rotated(t) && a < |t|
    ensures Rotated(RemoveAt(t, a))
  {
    var p: nat :| Rot(t, p);
    var r, p' := RemoveAt(t, a), if a < p then p - 1 else p;
    forall i, j | 0 <= i < |r| && 0 <= j < |r| && Precedes(p', i, j) ensures r[i] <= r[j] {
      var oi, oj := if i < a then i else i + 1, if j < a then j else j + 1;
      assert r[i] == t[oi] && r[j] == t[oj];
      RotOrder(t, p, oi, oj);
    }
    RotByOrder(r, if p' > |r| then |r| else p');
  }
}
