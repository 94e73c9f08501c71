/** Two global readings of the local invariants: a tag bit says whether some marked index lies below
    it, and the shape of a tree of minimal height is a function of what it holds. */
module Canonical {
  import opened Words
  import opened TreeHeap
  import opened TreeSteps
  import opened TreeTags

  /** k lies in block q of size 2^s. */
  ghost predicate Under(k: nat, s: nat, q: nat) { Shr(k, s) == q }

  ghost predicate AnyMarked(X: iset<nat>, s: nat, q: nat) {
    exists k {:trigger Under(k, s, q)} :: k in X && Under(k, s, q)
  }

  ghost predicate AnyKey<Id>(M: Content<Id>, s: nat, q: nat) {
    exists k {:trigger Under(k, s, q)} :: k in M && Under(k, s, q)
  }

  ghost predicate SlotKey<Id>(M: Content<Id>, s: nat, p: nat, i: nat) { AnyKey(M, s, 64 * p + i) }
  ghost predicate SlotMarked(X: iset<nat>, s: nat, p: nat, i: nat) { AnyMarked(X, s, 64 * p + i) }

  /** No node is empty, except possibly `skip`. */
  ghost predicate Busy<Id>(t: Tree<Id>, skip: Option<Id>) {
    forall n {:trigger t.nodes[n]} :: n in t.nodes && skip != Some(n) ==> t.nodes[n].count > 0
  }

  /** No node is empty, and the root is not a detour to its slot 0. */
  ghost predicate Minimal<Id>(t: Tree<Id>) { Busy(t, None) && RootMinimal(t) }

  ghost predicate RootMinimal<Id>(t: Tree<Id>) {
    t.head.Internal? && t.head.node in t.nodes ==>
      var r := t.nodes[t.head.node];
      r.count == 1 && |r.slots| == 64 ==> r.slots[0] == Null || (t.idr && r.shift == 0)
  }

  // ---------------------------------------------------------------- exact tags

  lemma BlockZero(k: nat, p: nat, i: nat)
    requires i < 64
    ensures Under(k, 0, 64 * p + i) <==> k == 64 * p + i
  {
  }

  lemma UnderUp(k: nat, s: nat, q: nat, i: nat)
    requires Under(k, s, 64 * q + i) && i < 64
    ensures Under(k, s + 6, q) && Digit(k, s) == i
  {
  }

  lemma UnderDown(k: nat, s: nat, q: nat)
    requires Under(k, s + 6, q)
    ensures Under(k, s, 64 * q + Digit(k, s))
  {
    assert Shr(k, s + 6) == Shr(k, s) / 64;
  }

  /** Some index lies in every block. */
  lemma {:induction false} BlockInhabited(s: nat, q: nat)
    requires s % 6 == 0
    ensures exists k {:trigger Under(k, s, q)} :: Under(k, s, q)
  {
    if s == 0 { assert Under(q, 0, q); } else {
      BlockInhabited(s - 6, 64 * q);
      var k :| Under(k, s - 6, 64 * q);
      UnderUp(k, s - 6, q, 0);
    }
  }

  /** The bit of a slot is set exactly when some marked index lies below the slot; so a node has
      a bit set exactly when some marked index lies below the node. */
  lemma {:induction false} BitMeaning<Id>(t: Tree<Id>, M: Content<Id>, K: Marks, n: Id, g: nat, i: nat)
    requires TreeOk(t, M, K) && n in t.nodes && g < MAX_TAGS && i < 64 && RecOk(t.nodes[n])
    ensures i in t.nodes[n].tags[g] <==> AnyMarked(K[g], t.nodes[n].shift, 64 * t.nodes[n].prefix + i)
    decreases t.nodes[n].shift, 0
  {
    var r := t.nodes[n];
    var q := 64 * r.prefix + i;
    assert BitOk(t, K, g, n, i) && SlotOk(t.nodes, n, i);
    if r.shift == 0 {
      if q in K[g] { assert Under(q, 0, q); }
      if k :| k in K[g] && Under(k, 0, q) { BlockZero(k, r.prefix, i); }
    } else if r.slots[i].Internal? {
      assert RecOk(t.nodes[r.slots[i].node]);
      NodeBits(t, M, K, r.slots[i].node, g);
    } else {
      NullBits(t, M, K, n, g, i);
    }
  }

  lemma NullBits<Id>(t: Tree<Id>, M: Content<Id>, K: Marks, n: Id, g: nat, i: nat)
    requires TreeOk(t, M, K) && n in t.nodes && g < MAX_TAGS && i < 64 && RecOk(t.nodes[n])
    requires t.nodes[n].shift > 0 && t.nodes[n].slots[i] == Null
    ensures t.idr && g == FREE <==> AnyMarked(K[g], t.nodes[n].shift, 64 * t.nodes[n].prefix + i)
  {
    var r := t.nodes[n];
    var q := 64 * r.prefix + i;
    forall k | k in M ensures !Under(k, r.shift, q) {
      assert LeadsTo(r, k);
      if Under(k, r.shift, q) { UnderUp(k, r.shift, r.prefix, i); }
    }
    if t.idr && g == FREE {
      BlockInhabited(r.shift, q);
      var k :| Under(k, r.shift, q);
    }
  }

  lemma {:induction false} NodeBits<Id>(t: Tree<Id>, M: Content<Id>, K: Marks, n: Id, g: nat)
    requires TreeOk(t, M, K) && n in t.nodes && g < MAX_TAGS && RecOk(t.nodes[n])
    ensures t.nodes[n].tags[g] != {} <==> AnyMarked(K[g], t.nodes[n].shift + 6, t.nodes[n].prefix)
    decreases t.nodes[n].shift, 1
  {
    var r := t.nodes[n];
    if r.tags[g] != {} {
      var i :| i in r.tags[g];
      BitMeaning(t, M, K, n, g, i);
      var k :| k in K[g] && Under(k, r.shift, 64 * r.prefix + i);
      UnderUp(k, r.shift, r.prefix, i);
    }
    if k :| k in K[g] && Under(k, r.shift + 6, r.prefix) {
      UnderDown(k, r.shift, r.prefix);
      BitMeaning(t, M, K, n, g, Digit(k, r.shift));
      assert Digit(k, r.shift) in r.tags[g];
    }
  }

  /** In an ordinary tree a root tag is set exactly when some item is tagged. */
  lemma RootTagMeaning<Id>(t: Tree<Id>, M: Content<Id>, K: Marks, g: nat)
    requires TreeOk(t, M, K) && g < MAX_TAGS && !t.idr
    ensures g in t.rootTags <==> K[g] != iset{}
  {
    assert RootBitOk(t, K, g);
    if t.head.Internal? {
      var r := t.nodes[t.head.node];
      assert RecOk(r);
      NodeBits(t, M, K, t.head.node, g);
      if K[g] != iset{} {
        var k :| k in K[g];
        assert Under(k, r.shift + 6, r.prefix) by { assert Covers(r, k); }
      }
    } else if K[g] != iset{} {
      var k :| k in K[g];
      assert k in M;
    }
  }

  // ---------------------------------------------------------------- canonical shape

  /** A tree with its node identities forgotten. */
  datatype Pic<Id> =
    | Hole
    | Entry(e: Entry<Id>)
    | Branch(shift: nat, count: int, nrValues: int, tags: seq<set<nat>>, kids: seq<Pic<Id>>)

  ghost function Picture<Id>(h: Heap<Id>, e: Entry<Id>): Pic<Id>
    decreases if e.Internal? && e.node in h then h[e.node].shift + 1 else 0
  {
    if e == Null then Hole
    else if e.Internal? && e.node in h then
      var r := h[e.node];
      Branch(r.shift, r.count, r.nrValues, r.tags, seq(|r.slots|, i requires 0 <= i < |r.slots| =>
        if r.slots[i].Internal? && r.slots[i].node in h && h[r.slots[i].node].shift >= r.shift then Hole
        else Picture(h, r.slots[i])))
    else Entry(e)
  }

  /** The tree that holds M with marks K, built from M and K alone. */
  ghost function Ideal<Id>(M: Content<Id>, K: Marks, s: nat, p: nat): Pic<Id>
    requires |K| == MAX_TAGS
    decreases s
  {
    Branch(s,
      |set i: nat | 0 <= i < 64 && SlotKey(M, s, p, i)|,
      if s == 0 then |set i: nat | 0 <= i < 64 && Present(M, p, i) && M[64 * p + i].Value?| else 0,
      seq(MAX_TAGS, g requires 0 <= g < MAX_TAGS => set i: nat | 0 <= i < 64 && SlotMarked(K[g], s, p, i)),
      seq(64, i requires 0 <= i < 64 =>
        if !SlotKey(M, s, p, i) then Hole
        else if s < 6 then if 64 * p + i in M then Entry(M[64 * p + i]) else Hole
        else Ideal(M, K, s - 6, 64 * p + i)))
  }

  ghost predicate Fits<Id>(M: Content<Id>, s: nat) { forall k :: k in M ==> Under(k, s + 6, 0) }

  /** The least shift, from s on, whose root covers every key. */
  ghost function LeastShift<Id>(M: Content<Id>, s: nat): nat
    decreases 66 - s
  {
    if s >= 60 || Fits(M, s) then s else LeastShift(M, s + 6)
  }

  ghost function IdealTree<Id>(M: Content<Id>, K: Marks): Pic<Id>
    requires |K| == MAX_TAGS
  {
    if M == map[] then Hole
    else if M.Keys == {0} then Entry(M[0])
    else Ideal(M, K, LeastShift(M, 0), 0)
  }

  /** Below a node that counts something lies a key. */
  lemma {:induction false} HasKey<Id>(t: Tree<Id>, M: Content<Id>, n: Id) returns (k: nat)
    requires BaseOk(t, M) && Minimal(t) && n in t.nodes
    ensures k in M && Covers(t.nodes[n], k)
    decreases t.nodes[n].shift
  {
    var r := t.nodes[n];
    assert CountOk(r, M) && RecOk(r);
    assert |Occ(r, M)| > 0;
    var i :| i in Occ(r, M);
    assert SlotOk(t.nodes, n, i);
    if r.shift == 0 {
      assert Present(M, r.prefix, i);
      k := 64 * r.prefix + i;
      LeafKey(r, k);
    } else {
      var c := r.slots[i].node;
      k := HasKey(t, M, c);
      ChildRange(r, t.nodes[c], i, k);
    }
  }

  lemma SlotKeys<Id>(t: Tree<Id>, M: Content<Id>, n: Id, i: nat)
    requires BaseOk(t, M) && Minimal(t) && !t.idr && n in t.nodes && i < 64 && RecOk(t.nodes[n])
    ensures t.nodes[n].slots[i] != Null <==> AnyKey(M, t.nodes[n].shift, 64 * t.nodes[n].prefix + i)
    ensures t.nodes[n].slots[i] != Null <==> i in Occ(t.nodes[n], M)
  {
    var r := t.nodes[n];
    var q := 64 * r.prefix + i;
    assert SlotOk(t.nodes, n, i);
    if r.shift == 0 {
      assert LeafOk(r, M, i);
      assert Present(M, r.prefix, i) <==> q in M;
      if q in M { assert Under(q, 0, q); }
      if k :| k in M && Under(k, 0, q) { BlockZero(k, r.prefix, i); }
    } else {
      if r.slots[i] != Null {
        var c := r.slots[i].node;
        var k := HasKey(t, M, c);
        assert Under(k, r.shift, q);
      }
      if k :| k in M && Under(k, r.shift, q) {
        UnderUp(k, r.shift, r.prefix, i);
        assert LeadsTo(r, k);
      }
    }
  }

  lemma NodeNumbers<Id>(t: Tree<Id>, M: Content<Id>, K: Marks, n: Id)
    requires TreeOk(t, M, K) && Minimal(t) && !t.idr && n in t.nodes && RecOk(t.nodes[n])
    ensures var r, b := t.nodes[n], Ideal(M, K, t.nodes[n].shift, t.nodes[n].prefix);
      r.count == b.count && r.nrValues == b.nrValues && r.tags == b.tags
  {
    var r, b := t.nodes[n], Ideal(M, K, t.nodes[n].shift, t.nodes[n].prefix);
    assert CountOk(r, M);
    var kids := set i: nat | 0 <= i < 64 && SlotKey(M, r.shift, r.prefix, i);
    forall i: nat | i < 64 ensures i in kids <==> i in Occ(r, M) { SlotKeys(t, M, n, i); }
    assert kids == Occ(r, M);
    if r.shift == 0 {
      var vals := set i: nat | 0 <= i < 64 && Present(M, r.prefix, i) && M[64 * r.prefix + i].Value?;
      forall i: nat | i < 64 ensures i in vals <==> i in Vals(r) {
        assert LeafOk(r, M, i);
        assert Present(M, r.prefix, i) <==> 64 * r.prefix + i in M;
      }
      assert vals == Vals(r);
    } else {
      forall i | 0 <= i < 64 ensures !r.slots[i].Value? { assert SlotOk(t.nodes, n, i); }
      assert Vals(r) == {};
    }
    forall g | 0 <= g < MAX_TAGS ensures r.tags[g] == b.tags[g] {
      forall i: nat | i < 64 ensures i in r.tags[g] <==> i in b.tags[g] { BitMeaning(t, M, K, n, g, i); }
    }
    assert r.tags == b.tags;
  }

  lemma {:induction false} NodeIdeal<Id>(t: Tree<Id>, M: Content<Id>, K: Marks, n: Id)
    requires TreeOk(t, M, K) && Minimal(t) && !t.idr && n in t.nodes
    ensures Picture(t.nodes, Internal(n)) == Ideal(M, K, t.nodes[n].shift, t.nodes[n].prefix)
    decreases t.nodes[n].shift
  {
    var r := t.nodes[n];
    assert RecOk(r);
    NodeNumbers(t, M, K, n);
    var a, b := Picture(t.nodes, Internal(n)), Ideal(M, K, r.shift, r.prefix);
    forall i | 0 <= i < 64 ensures a.kids[i] == b.kids[i] {
      SlotKeys(t, M, n, i);
      assert SlotOk(t.nodes, n, i);
      assert SlotKey(M, r.shift, r.prefix, i) <==> r.slots[i] != Null;
      if r.slots[i] == Null {
        assert Picture(t.nodes, r.slots[i]) == Hole;
      } else if r.shift == 0 {
        assert LeafOk(r, M, i);
        assert a.kids[i] == Picture(t.nodes, r.slots[i]) == Entry(r.slots[i]);
      } else {
        var c := r.slots[i].node;
        NodeIdeal(t, M, K, c);
        assert a.kids[i] == Picture(t.nodes, Internal(c));
        assert b.kids[i] == Ideal(M, K, r.shift - 6, 64 * r.prefix + i);
      }
    }
    assert a.kids == b.kids;
  }

  lemma {:induction false} LeastIs<Id>(M: Content<Id>, s: nat, s': nat)
    requires s <= s' <= 60 && s % 6 == 0 && s' % 6 == 0 && Fits(M, s')
    requires forall x :: s <= x < s' && x % 6 == 0 ==> !Fits(M, x)
    ensures LeastShift(M, s) == s'
    decreases s' - s
  {
    if s < s' { LeastIs(M, s + 6, s'); }
  }

  /** An index beside block 0 does not fit below its level. */
  lemma FitsNot<Id>(M: Content<Id>, k: nat, s: nat, i: nat, x: nat)
    requires k in M && Under(k, s, i) && i > 0 && x < s && x % 6 == 0 && s % 6 == 0
    ensures !Fits(M, x)
  {
    if Fits(M, x) {
      assert Under(k, x + 6, 0);
      ShrZeroUp(k, x + 6, s);
    }
  }

  /** The root's height is the least that holds the largest key. */
  lemma LeastHeight<Id>(t: Tree<Id>, M: Content<Id>)
    requires BaseOk(t, M) && Minimal(t) && !t.idr && t.head.Internal?
    ensures t.nodes[t.head.node].shift == LeastShift(M, 0)
    ensures M.Keys != {0} && M != map[]
  {
    var n := t.head.node;
    var r := t.nodes[n];
    assert RecOk(r) && CountOk(r, M);
    forall k | k in M ensures Under(k, r.shift + 6, 0) { assert Covers(r, k); }
    var i := NonzeroSlot(t, M);
    SlotKeys(t, M, n, i);
    var k :| k in M && Under(k, r.shift, i);
    forall x | 0 <= x < r.shift && x % 6 == 0 ensures !Fits(M, x) { FitsNot(M, k, r.shift, i, x); }
    LeastIs(M, 0, r.shift);
    if k == 0 { ShrZeroUp(0, 0, r.shift); }
  }

  lemma NonzeroSlot<Id>(t: Tree<Id>, M: Content<Id>) returns (i: nat)
    requires BaseOk(t, M) && Minimal(t) && t.head.Internal? && RecOk(t.nodes[t.head.node])
    requires !(t.idr && t.nodes[t.head.node].shift == 0)
    ensures 0 < i < 64 && t.nodes[t.head.node].slots[i] != Null
  {
    var n := t.head.node;
    var r := t.nodes[n];
    assert CountOk(r, M);
    var o := Occ(r, M);
    OccSlot(t, M, n, 0);
    assert o != {0} && o != {};
    assert o - {0} != {};
    i :| i in o - {0};
    OccSlot(t, M, n, i);
  }

  lemma OccSlot<Id>(t: Tree<Id>, M: Content<Id>, n: Id, i: nat)
    requires BaseOk(t, M) && n in t.nodes && i < 64 && RecOk(t.nodes[n]) && !(t.idr && t.nodes[n].shift == 0)
    ensures i in Occ(t.nodes[n], M) <==> t.nodes[n].slots[i] != Null
  {
    var r := t.nodes[n];
    if r.shift == 0 {
      assert LeafOk(r, M, i);
      assert Present(M, r.prefix, i) <==> 64 * r.prefix + i in M;
    }
  }

  /** History independence: a tree of minimal shape is determined by its contents and marks. */
  lemma CanonicalShape<Id>(t: Tree<Id>, M: Content<Id>, K: Marks)
    requires TreeOk(t, M, K) && Minimal(t) && !t.idr
    ensures Picture(t.nodes, t.head) == IdealTree(M, K)
    ensures t.rootTags * {0, 1, 2} == set g: nat | 0 <= g < MAX_TAGS && K[g] != iset{}
  {
    forall g: nat | g < MAX_TAGS ensures g in t.rootTags <==> K[g] != iset{} { RootTagMeaning(t, M, K, g); }
    match t.head
    case Null =>
    case Item(_) => assert M.Keys == {0};
    case Value(_) => assert M.Keys == {0};
    case Internal(n) =>
      LeastHeight(t, M);
      NodeIdeal(t, M, K, n);
  }

  /** Hence two histories that end with the same map and marks end with the same tree. */
  lemma HistoryIndependence<Id>(t1: Tree<Id>, t2: Tree<Id>, M: Content<Id>, K: Marks)
    requires TreeOk(t1, M, K) && Minimal(t1) && !t1.idr
    requires TreeOk(t2, M, K) && Minimal(t2) && !t2.idr
    ensures Picture(t1.nodes, t1.head) == Picture(t2.nodes, t2.head)
    ensures t1.rootTags * {0, 1, 2} == t2.rootTags * {0, 1, 2}
  {
    CanonicalShape(t1, M, K);
    CanonicalShape(t2, M, K);
  }

  // ---------------------------------------------------------------- growing towards an index

  /** The root has, or is about to get on the way to `index`, something beside its slot 0. */
  ghost predicate HighRoot<Id>(t: Tree<Id>, index: nat) {
    t.head.Internal? && t.head.node in t.nodes ==>
      var r := t.nodes[t.head.node];
      Digit(index, r.shift) > 0 || (t.idr && r.shift == 0) ||
      exists i {:trigger r.slots[i]} :: 0 < i < |r.slots| && r.slots[i] != Null
  }

  lemma AddChildHigh<Id>(t: Tree<Id>, p: Id, i: nat, n: Id, index: nat)
    requires HighRoot(t, index) && p in t.nodes && n !in t.nodes && i < |t.nodes[p].slots| && t.nodes[p].shift >= 6
    requires t.head.Internal? ==> t.head.node in t.nodes
    ensures HighRoot(AddChild(t, p, i, n), index)
  {
    if t.head.Internal? {
      var r, r' := t.nodes[t.head.node], AddChild(t, p, i, n).nodes[t.head.node];
      if j :| 0 < j < |r.slots| && r.slots[j] != Null { assert r'.slots[j] != Null; }
    }
  }

  lemma AddChildBusy<Id>(t: Tree<Id>, M: Content<Id>, p: Id, i: nat, n: Id)
    requires BaseOk(t, M) && Busy(t, Some(p)) && p in t.nodes && n !in t.nodes && i < |t.nodes[p].slots| &&
      t.nodes[p].shift >= 6
    ensures Busy(AddChild(t, p, i, n), Some(n))
  {
    assert CountOk(t.nodes[p], M);
    forall m | m in AddChild(t, p, i, n).nodes && m != n ensures AddChild(t, p, i, n).nodes[m].count > 0 {
      if m != p { assert t.nodes[m].count > 0; }
    }
  }

  /** A node with a child counts it. */
  lemma SlotCounts<Id>(t: Tree<Id>, M: Content<Id>, n: Id, i: nat)
    requires BaseOk(t, M) && n in t.nodes && i < 64 && RecOk(t.nodes[n]) && t.nodes[n].shift > 0
    requires t.nodes[n].slots[i] != Null
    ensures t.nodes[n].count > 0
  {
    assert CountOk(t.nodes[n], M) && i in Occ(t.nodes[n], M);
  }

  lemma MinimalIsHigh<Id>(t: Tree<Id>, M: Content<Id>, index: nat)
    requires BaseOk(t, M) && Minimal(t)
    ensures HighRoot(t, index)
  {
    if t.head.Internal? {
      var r := t.nodes[t.head.node];
      assert RecOk(r) && CountOk(r, M);
      if !(t.idr && r.shift == 0) { var i := NonzeroSlot(t, M); assert r.slots[i] != Null; }
    }
  }

  /** Once the index is present and no node is empty, the shape is minimal. */
  lemma HighIsMinimal<Id>(t: Tree<Id>, M: Content<Id>, index: nat)
    requires BaseOk(t, M) && Busy(t, None) && HighRoot(t, index) && index in M
    ensures Minimal(t)
  {
    if t.head.Internal? {
      var n := t.head.node;
      var r := t.nodes[n];
      assert RecOk(r);
      if r.count == 1 && r.slots[0] != Null && !(t.idr && r.shift == 0) {
        assert Covers(r, index);
        OnlyZero(t, M, n);
      }
    }
  }

  // ---------------------------------------------------------------- shedding nodes

  /** The shape is minimal except that `n` may have become empty, or a mere detour if it is the root. */
  ghost predicate MinimalBut<Id>(t: Tree<Id>, n: Id) {
    Busy(t, Some(n)) && (t.head != Internal(n) ==> RootMinimal(t))
  }

  lemma HeadShiftSame<Id>(t: Tree<Id>, t': Tree<Id>)
    requires SameButTags(t, t')
    ensures HeadShift(t) == HeadShift(t')
  {
    if t.head.Internal? && t.head.node in t.nodes {
      assert t'.nodes[t.head.node].(tags := []) == t.nodes[t.head.node].(tags := []);
    }
  }

  lemma SameMinimal<Id>(t: Tree<Id>, t': Tree<Id>)
    requires SameButTags(t, t') && Minimal(t)
    ensures Minimal(t')
  {
    forall n | n in t'.nodes ensures t'.nodes[n].count > 0 {
      assert t.nodes[n].count > 0 && t'.nodes[n].(tags := []) == t.nodes[n].(tags := []);
    }
    if t'.head.Internal? && t'.head.node in t'.nodes {
      var r, r' := t.nodes[t.head.node], t'.nodes[t'.head.node];
      assert r'.(tags := []) == r.(tags := []);
    }
  }

  lemma EraseMinimal<Id>(t: Tree<Id>, n: Id, i: nat)
    requires Minimal(t) && n in t.nodes && i < |t.nodes[n].slots|
    ensures MinimalBut(Erase(t, n, i), n)
  {
    var t' := Erase(t, n, i);
    forall m | m in t'.nodes && m != n ensures t'.nodes[m].count > 0 { assert t.nodes[m].count > 0; }
  }

  lemma UnlinkMinimal<Id>(t: Tree<Id>, n: Id)
    requires Shape(t) && MinimalBut(t, n) && n in t.nodes && t.nodes[n].parent.Some?
    requires t.nodes[n].parent.value in t.nodes && t.nodes[n].offset < |t.nodes[t.nodes[n].parent.value].slots|
    ensures MinimalBut(Unlink(t, n), t.nodes[n].parent.value)
  {
    assert ParentOk(t, n);
    var t', p := Unlink(t, n), t.nodes[n].parent.value;
    forall m | m in t'.nodes && m != p ensures t'.nodes[m].count > 0 { assert t.nodes[m].count > 0; }
    if t'.head.Internal? && t'.head.node in t'.nodes && t'.head.node != p {
      assert t'.nodes[t'.head.node] == t.nodes[t.head.node];
    }
  }

  lemma StoreMinimal<Id>(t: Tree<Id>, M: Content<Id>, n: Id, i: nat, k: nat, e: Entry<Id>)
    requires BaseOk(t, M) && StorePre(t, M, n, i, k, e) && Busy(t, Some(n)) && HighRoot(t, k)
    ensures Minimal(Store(t, n, i, e))
  {
    StoreBase(t, M, n, i, k, e);
    var t' := Store(t, n, i, e);
    assert CountOk(t.nodes[n], M);
    forall m | m in t'.nodes ensures t'.nodes[m].count > 0 { if m != n { assert t.nodes[m].count > 0; } }
    if t.head.Internal? {
      var r, r' := t.nodes[t.head.node], t'.nodes[t.head.node];
      if t.head.node != n {
        assert r' == r;
      } else if j :| 0 < j < |r.slots| && r.slots[j] != Null {
        assert LeafOk(r, M, j) && LeafOk(r, M, i) && RecOk(r);
        assert r'.slots[j] != Null;
      }
    }
    HighIsMinimal(t', M[k := e], k);
  }

  lemma LowerBusy<Id>(t: Tree<Id>, rootTags: set<nat>)
    requires Busy(t, None) && t.head.Internal? && t.head.node in t.nodes && |t.nodes[t.head.node].slots| > 0
    requires var e := t.nodes[t.head.node].slots[0]; e.Internal? ==> e.node in t.nodes
    ensures Busy(Lower(t, rootTags), None)
  {
    var t' := Lower(t, rootTags);
    forall m | m in t'.nodes ensures t'.nodes[m].count > 0 { assert t.nodes[m].count > 0; }
  }
}
