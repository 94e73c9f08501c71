/** What each structural store of the writer does to the heap of nodes, and that it keeps the
    base invariant. The sequential methods and the lockless writer both take these steps. */
module TreeSteps {
  import opened Words
  import opened TreeHeap

  /** radix_tree_node_alloc with count and nr_values 0. */
  function FreshRec<Id>(parent: Option<Id>, shift: nat, offset: nat, prefix: nat, tags: seq<set<nat>>): Rec<Id> {
    Rec(NoSlots(), 0, 0, shift, offset, parent, tags, prefix)
  }

  /** An empty slot of p receives a new, empty node. */
  function AddChild<Id>(t: Tree<Id>, p: Id, i: nat, n: Id): Tree<Id>
    requires p in t.nodes && i < |t.nodes[p].slots| && t.nodes[p].shift >= 6
  {
    var r := t.nodes[p];
    t.(nodes := t.nodes
      [n := FreshRec(Some(p), r.shift - 6, i, 64 * r.prefix + i, FreshTags(t.idr))]
      [p := r.(slots := r.slots[i := Internal(n)], count := r.count + 1)])
  }

  /** An empty tree receives a new, empty root. */
  function AddRoot<Id>(t: Tree<Id>, n: Id, shift: nat): Tree<Id> {
    t.(head := Internal(n), nodes := map[n := FreshRec(None, shift, 0, 0, FreshTags(t.idr))])
  }

  /** A new root above the old head, which moves to its slot 0. */
  function Grow<Id>(t: Tree<Id>, n: Id, shift: nat, tags: seq<set<nat>>, rootTags: set<nat>): Tree<Id>
    requires t.head.Internal? ==> t.head.node in t.nodes
  {
    var below := if t.head.Internal? then t.nodes[t.head.node := t.nodes[t.head.node].(parent := Some(n))] else t.nodes;
    t.(head := Internal(n), rootTags := rootTags, nodes := below
      [n := Rec(NoSlots()[0 := t.head], 1, if t.head.Value? then 1 else 0, shift, 0, None, tags, 0)])
  }

  /** A leaf slot receives the entry of an index that was absent. */
  function Store<Id>(t: Tree<Id>, n: Id, i: nat, e: Entry<Id>): Tree<Id>
    requires n in t.nodes && i < |t.nodes[n].slots|
  {
    var r := t.nodes[n];
    t.(nodes := t.nodes[n := r.(slots := r.slots[i := e], count := r.count + 1,
                                nrValues := r.nrValues + if e.Value? then 1 else 0)])
  }

  /** A leaf slot loses its entry. */
  function Erase<Id>(t: Tree<Id>, n: Id, i: nat): Tree<Id>
    requires n in t.nodes && i < |t.nodes[n].slots|
  {
    var r := t.nodes[n];
    t.(nodes := t.nodes[n := r.(slots := r.slots[i := Null], count := r.count - 1,
                                nrValues := r.nrValues - if r.slots[i].Value? then 1 else 0)])
  }

  /** An empty node leaves its parent. */
  function Unlink<Id>(t: Tree<Id>, n: Id): Tree<Id>
    requires n in t.nodes && t.nodes[n].parent.Some?
    requires t.nodes[n].parent.value in t.nodes && t.nodes[n].offset < |t.nodes[t.nodes[n].parent.value].slots|
  {
    var p := t.nodes[n].parent.value;
    var r := t.nodes[p];
    t.(nodes := t.nodes[p := r.(slots := r.slots[t.nodes[n].offset := Null], count := r.count - 1)] - {n})
  }

  /** The head becomes NULL, and the root node, if there was one, leaves the tree. */
  function DropRoot<Id>(t: Tree<Id>, rootTags: set<nat>): Tree<Id> {
    t.(head := Null, nodes := map[], rootTags := rootTags)
  }

  /** The only child of the root, in slot 0, becomes the head. */
  function Lower<Id>(t: Tree<Id>, rootTags: set<nat>): Tree<Id>
    requires t.head.Internal? && t.head.node in t.nodes && |t.nodes[t.head.node].slots| > 0
    requires var e := t.nodes[t.head.node].slots[0]; e.Internal? ==> e.node in t.nodes
  {
    var e := t.nodes[t.head.node].slots[0];
    var below := if e.Internal? then t.nodes[e.node := t.nodes[e.node].(parent := None)] else t.nodes;
    t.(head := e, rootTags := rootTags, nodes := below - {t.head.node})
  }

  // ---------------------------------------------------------------- counts that are 0 or 1

  lemma OccHas<Id>(r: Rec<Id>, M: Content<Id>, k: nat)
    requires r.shift == 0 && Covers(r, k) && k in M
    ensures Digit(k, 0) in Occ(r, M)
  {
    LeafKey(r, k);
    assert Present(M, r.prefix, k % 64);
  }

  /** A node that counts nothing has only empty slots, and covers no present index. */
  lemma EmptyNode<Id>(t: Tree<Id>, M: Content<Id>, n: Id)
    requires BaseOk(t, M) && n in t.nodes && t.nodes[n].count == 0
    ensures RecOk(t.nodes[n]) && forall i :: 0 <= i < 64 ==> t.nodes[n].slots[i] == Null
    ensures forall k :: k in M ==> !Covers(t.nodes[n], k)
  {
    var r := t.nodes[n];
    assert CountOk(r, M) && RecOk(r);
    assert Occ(r, M) == {};
    forall i | 0 <= i < 64 ensures r.slots[i] == Null {
      assert i !in Occ(r, M);
      if r.shift == 0 { assert LeafOk(r, M, i); assert !Present(M, r.prefix, i); }
    }
    forall k | k in M ensures !Covers(r, k) {
      assert LeadsTo(r, k);
      if r.shift == 0 && Covers(r, k) { OccHas(r, M, k); }
    }
  }

  /** A node that counts one child, in slot 0, has nothing in its other slots, and the present
      indices it covers are in slot 0. */
  lemma OnlyZero<Id>(t: Tree<Id>, M: Content<Id>, n: Id)
    requires BaseOk(t, M) && n in t.nodes && t.nodes[n].count == 1 && RecOk(t.nodes[n])
    requires t.nodes[n].slots[0] != Null
    ensures Occ(t.nodes[n], M) == {0}
    ensures forall i :: 0 < i < 64 ==> t.nodes[n].slots[i] == Null
    ensures forall k :: k in M && Covers(t.nodes[n], k) ==> Digit(k, t.nodes[n].shift) == 0
  {
    var r := t.nodes[n];
    assert CountOk(r, M);
    if r.shift == 0 { assert LeafOk(r, M, 0); assert Present(M, r.prefix, 0); }
    assert 0 in Occ(r, M);
    assert |Occ(r, M) - {0}| == 0;
    forall i | 0 < i < 64 ensures r.slots[i] == Null {
      assert i !in Occ(r, M) by { assert i !in Occ(r, M) - {0}; }
      if r.shift == 0 { assert LeafOk(r, M, i); assert !Present(M, r.prefix, i); }
    }
    forall k | k in M && Covers(r, k) ensures Digit(k, r.shift) == 0 {
      assert LeadsTo(r, k);
      if r.shift == 0 { OccHas(r, M, k); }
    }
  }

  lemma ValsUpdate<Id>(r: Rec<Id>, r': Rec<Id>, i: nat, e: Entry<Id>)
    requires i < |r.slots| && r'.slots == r.slots[i := e]
    ensures |Vals(r')| == |Vals(r)| - (if r.slots[i].Value? then 1 else 0) + (if e.Value? then 1 else 0)
  {
    assert Vals(r') == if e.Value? then Vals(r) - {i} + {i} else Vals(r) - {i};
    assert r.slots[i].Value? <==> i in Vals(r);
  }

  lemma OccInsert<Id>(r: Rec<Id>, r': Rec<Id>, M: Content<Id>, i: nat, e: Entry<Id>)
    requires r.shift == 0 && r'.shift == 0 && r'.prefix == r.prefix && i < 64 && 64 * r.prefix + i !in M
    ensures |Occ(r', M[64 * r.prefix + i := e])| == |Occ(r, M)| + 1
  {
    var M' := M[64 * r.prefix + i := e];
    assert forall j :: 0 <= j < 64 ==> (Present(M', r.prefix, j) <==> Present(M, r.prefix, j) || j == i);
    assert !Present(M, r.prefix, i);
    assert Occ(r', M') == Occ(r, M) + {i};
  }

  lemma OccRemove<Id>(r: Rec<Id>, r': Rec<Id>, M: Content<Id>, i: nat)
    requires r.shift == 0 && r'.shift == 0 && r'.prefix == r.prefix && i < 64 && 64 * r.prefix + i in M
    ensures |Occ(r', M - {64 * r.prefix + i})| == |Occ(r, M)| - 1
  {
    var M' := M - {64 * r.prefix + i};
    assert forall j :: 0 <= j < 64 ==> (Present(M', r.prefix, j) <==> Present(M, r.prefix, j) && j != i);
    assert Present(M, r.prefix, i);
    assert Occ(r', M') == Occ(r, M) - {i};
  }

  // ---------------------------------------------------------------- AddChild

  lemma AddChildShape<Id>(t: Tree<Id>, p: Id, i: nat, n: Id)
    requires Shape(t) && p in t.nodes && n !in t.nodes && i < 64
    requires RecOk(t.nodes[p]) && t.nodes[p].shift >= 6 && t.nodes[p].slots[i] == Null
    ensures Shape(AddChild(t, p, i, n))
  {
    var t' := AddChild(t, p, i, n);
    forall m, j | m in t'.nodes && 0 <= j < 64 ensures SlotOk(t'.nodes, m, j) {
      if m != n { assert SlotOk(t.nodes, m, j) && RecOk(t.nodes[m]); }
    }
    forall m | m in t'.nodes ensures ParentOk(t', m) && RecOk(t'.nodes[m]) {
      if m != n { assert ParentOk(t, m) && RecOk(t.nodes[m]); }
    }
  }

  lemma AddChildMap<Id>(t: Tree<Id>, M: Content<Id>, p: Id, i: nat, n: Id)
    requires Shape(t) && MapOk(t, M) && p in t.nodes && n !in t.nodes && i < 64
    requires RecOk(t.nodes[p]) && t.nodes[p].shift >= 6 && t.nodes[p].slots[i] == Null
    ensures MapOk(AddChild(t, p, i, n), M)
    ensures forall k :: k in M ==> !Covers(AddChild(t, p, i, n).nodes[n], k)
  {
    var t' := AddChild(t, p, i, n);
    var r, c := t.nodes[p], t'.nodes[n];
    forall k | k in M ensures !Covers(c, k) {
      ChildRange(r, c, i, k);
      assert LeadsTo(r, k);
    }
    forall m, k | m in t'.nodes && k in M ensures LeadsTo(t'.nodes[m], k) {
      if m != n { assert LeadsTo(t.nodes[m], k); }
    }
    forall m, j | m in t'.nodes && t'.nodes[m].shift == 0 && 0 <= j < 64 ensures LeafOk(t'.nodes[m], M, j) {
      if m != n { assert LeafOk(t.nodes[m], M, j); } else { LeafKey(c, 64 * c.prefix + j); }
    }
  }

  lemma AddChildCount<Id>(t: Tree<Id>, M: Content<Id>, p: Id, i: nat, n: Id)
    requires BaseOk(t, M) && p in t.nodes && n !in t.nodes && i < 64
    requires RecOk(t.nodes[p]) && t.nodes[p].shift >= 6 && t.nodes[p].slots[i] == Null
    requires forall k :: k in M ==> !Covers(AddChild(t, p, i, n).nodes[n], k)
    ensures forall m {:trigger CountOk(AddChild(t, p, i, n).nodes[m], M)} ::
      m in AddChild(t, p, i, n).nodes ==> CountOk(AddChild(t, p, i, n).nodes[m], M)
  {
    var t' := AddChild(t, p, i, n);
    var r, r', c := t.nodes[p], t'.nodes[p], t'.nodes[n];
    assert Occ(r', M) == Occ(r, M) + {i};
    assert Vals(r') == Vals(r) && Vals(c) == {};
    if c.shift == 0 {
      forall j | 0 <= j < 64 ensures !Present(M, c.prefix, j) { LeafKey(c, 64 * c.prefix + j); }
    }
    assert Occ(c, M) == {};
    forall m | m in t'.nodes ensures CountOk(t'.nodes[m], M) {
      if m != n { assert CountOk(t.nodes[m], M); }
    }
  }

  lemma AddChildBase<Id>(t: Tree<Id>, M: Content<Id>, p: Id, i: nat, n: Id)
    requires BaseOk(t, M) && p in t.nodes && n !in t.nodes && i < 64
    requires RecOk(t.nodes[p]) && t.nodes[p].shift >= 6 && t.nodes[p].slots[i] == Null
    ensures BaseOk(AddChild(t, p, i, n), M)
  {
    AddChildShape(t, p, i, n);
    AddChildMap(t, M, p, i, n);
    AddChildCount(t, M, p, i, n);
  }

  lemma AddRootBase<Id>(t: Tree<Id>, M: Content<Id>, n: Id, shift: nat)
    requires BaseOk(t, M) && t.head == Null && shift % 6 == 0 && shift <= 60
    ensures BaseOk(AddRoot(t, n, shift), M)
  {
    var t' := AddRoot(t, n, shift);
    var c := t'.nodes[n];
    assert Occ(c, M) == {} && Vals(c) == {};
  }

  // ---------------------------------------------------------------- Grow

  ghost predicate GrowPre<Id>(t: Tree<Id>, n: Id, shift: nat, tags: seq<set<nat>>) {
    && Shape(t) && n !in t.nodes && t.head != Null && shift % 6 == 0 && shift <= 60
    && (if t.head.Internal? then t.nodes[t.head.node].shift + 6 == shift else shift == 0)
    && |tags| == MAX_TAGS && forall g, i :: 0 <= g < MAX_TAGS && i in tags[g] ==> i < 64
  }

  lemma GrowShape<Id>(t: Tree<Id>, n: Id, shift: nat, tags: seq<set<nat>>, rootTags: set<nat>)
    requires GrowPre(t, n, shift, tags)
    ensures Shape(Grow(t, n, shift, tags, rootTags))
  {
    var t' := Grow(t, n, shift, tags, rootTags);
    forall m, j | m in t'.nodes && 0 <= j < 64 ensures SlotOk(t'.nodes, m, j) {
      if m != n { assert SlotOk(t.nodes, m, j) && RecOk(t.nodes[m]); }
    }
    forall m | m in t'.nodes ensures ParentOk(t', m) && RecOk(t'.nodes[m]) {
      if m != n { assert ParentOk(t, m) && RecOk(t.nodes[m]); }
    }
  }

  lemma GrowMap<Id>(t: Tree<Id>, M: Content<Id>, n: Id, shift: nat, tags: seq<set<nat>>, rootTags: set<nat>)
    requires GrowPre(t, n, shift, tags) && MapOk(t, M)
    ensures MapOk(Grow(t, n, shift, tags, rootTags), M)
  {
    var t' := Grow(t, n, shift, tags, rootTags);
    var c := t'.nodes[n];
    forall m, j | m in t'.nodes && t'.nodes[m].shift == 0 && 0 <= j < 64 ensures LeafOk(t'.nodes[m], M, j) {
      if m != n { assert LeafOk(t.nodes[m], M, j); }
    }
    forall k | k in M ensures Covers(c, k) && Digit(k, shift) == 0 {
      if t.head.Internal? { ChildRange(c, t.nodes[t.head.node], 0, k); } else { LeafKey(c, k); }
    }
    forall m, k | m in t'.nodes && k in M ensures LeadsTo(t'.nodes[m], k) {
      if m != n { assert LeadsTo(t.nodes[m], k); }
    }
  }

  lemma GrowBase<Id>(t: Tree<Id>, M: Content<Id>, n: Id, shift: nat, tags: seq<set<nat>>, rootTags: set<nat>)
    requires GrowPre(t, n, shift, tags) && BaseOk(t, M)
    ensures BaseOk(Grow(t, n, shift, tags, rootTags), M)
  {
    var t' := Grow(t, n, shift, tags, rootTags);
    var c := t'.nodes[n];
    GrowShape(t, n, shift, tags, rootTags);
    GrowMap(t, M, n, shift, tags, rootTags);
    assert Occ(c, M) == {0} by {
      if shift == 0 { forall j | 0 <= j < 64 ensures Present(M, 0, j) <==> j == 0 { } }
    }
    assert Vals(c) == if t.head.Value? then {0} else {};
    forall m | m in t'.nodes ensures CountOk(t'.nodes[m], M) {
      if m != n {
        assert CountOk(t.nodes[m], M);
        assert Occ(t.nodes[m], M) == Occ(t'.nodes[m], M) && Vals(t.nodes[m]) == Vals(t'.nodes[m]);
      }
    }
  }

  // ---------------------------------------------------------------- Store

  /** What any node covers, the root covers. */
  lemma {:induction false} RootCovers<Id>(t: Tree<Id>, n: Id, k: nat)
    requires Shape(t) && n in t.nodes && Covers(t.nodes[n], k)
    ensures t.head.Internal? && t.head.node in t.nodes && Covers(t.nodes[t.head.node], k)
    decreases 60 - t.nodes[n].shift
  {
    assert ParentOk(t, n) && RecOk(t.nodes[n]);
    if t.nodes[n].parent.Some? {
      var p := t.nodes[n].parent.value;
      ParentCovers(t, n, p, k);
      RootCovers(t, p, k);
    }
  }

  /** A leaf slot's entry may change among non-internal entries without touching the shape. */
  lemma LeafSlotShape<Id>(t: Tree<Id>, n: Id, r': Rec<Id>)
    requires Shape(t) && n in t.nodes && t.nodes[n].shift == 0 && RecOk(r')
    requires r' == t.nodes[n].(slots := r'.slots, count := r'.count, nrValues := r'.nrValues)
    requires forall i :: 0 <= i < 64 ==> r'.slots[i].Data() || r'.slots[i] == Null
    ensures Shape(t.(nodes := t.nodes[n := r']))
  {
    var t' := t.(nodes := t.nodes[n := r']);
    forall m, j | m in t'.nodes && 0 <= j < 64 ensures SlotOk(t'.nodes, m, j) {
      assert SlotOk(t.nodes, m, j);
    }
    forall m | m in t'.nodes ensures ParentOk(t', m) && RecOk(t'.nodes[m]) {
      assert ParentOk(t, m) && RecOk(t.nodes[m]);
      if t.nodes[m].parent == Some(n) { ParentFacts(t, m, n); }
    }
  }

  ghost predicate StorePre<Id>(t: Tree<Id>, M: Content<Id>, n: Id, i: nat, k: nat, e: Entry<Id>) {
    && Shape(t) && MapOk(t, M) && n in t.nodes && i < 64 && RecOk(t.nodes[n]) && t.nodes[n].shift == 0
    && k == 64 * t.nodes[n].prefix + i && k !in M && k < WORD
    && (e.Data() || (t.idr && e == Null))
  }

  lemma StoreShape<Id>(t: Tree<Id>, M: Content<Id>, n: Id, i: nat, k: nat, e: Entry<Id>)
    requires StorePre(t, M, n, i, k, e)
    ensures Shape(Store(t, n, i, e))
  {
    var r' := Store(t, n, i, e).nodes[n];
    forall j | 0 <= j < 64 ensures r'.slots[j].Data() || r'.slots[j] == Null { assert SlotOk(t.nodes, n, j); }
    LeafSlotShape(t, n, r');
  }

  lemma StoreMap<Id>(t: Tree<Id>, M: Content<Id>, n: Id, i: nat, k: nat, e: Entry<Id>)
    requires StorePre(t, M, n, i, k, e)
    ensures MapOk(Store(t, n, i, e), M[k := e])
  {
    var t', M' := Store(t, n, i, e), M[k := e];
    LeafKey(t.nodes[n], k);
    RootCovers(t, n, k);
    forall m, j | m in t'.nodes && t'.nodes[m].shift == 0 && 0 <= j < 64 ensures LeafOk(t'.nodes[m], M', j) {
      assert LeafOk(t.nodes[m], M, j);
      if t.nodes[m].prefix == t.nodes[n].prefix { Unique(t, m, n); }
    }
    forall m, l | m in t'.nodes && l in M' ensures LeadsTo(t'.nodes[m], l) {
      if l != k {
        assert LeadsTo(t.nodes[m], l);
      } else if m != n && t.nodes[m].shift > 0 && Covers(t.nodes[m], k) {
        assert RecOk(t.nodes[m]);
        PathInternal(t, n, m, k);
      }
    }
  }

  lemma StoreCount<Id>(t: Tree<Id>, M: Content<Id>, n: Id, i: nat, k: nat, e: Entry<Id>, m: Id)
    requires StorePre(t, M, n, i, k, e) && m in t.nodes && CountOk(t.nodes[m], M)
    ensures CountOk(Store(t, n, i, e).nodes[m], M[k := e])
  {
    var r, r', M' := t.nodes[m], Store(t, n, i, e).nodes[m], M[k := e];
    if m == n {
      assert LeafOk(r, M, i);
      OccInsert(r, r', M, i, e);
      ValsUpdate(r, r', i, e);
    } else {
      if r.shift == 0 && r.prefix == t.nodes[n].prefix { Unique(t, m, n); }
      assert r.shift == 0 ==> forall j :: 0 <= j < 64 ==> (Present(M', r.prefix, j) <==> Present(M, r.prefix, j));
      assert Occ(r', M') == Occ(r, M);
    }
  }

  lemma StoreBase<Id>(t: Tree<Id>, M: Content<Id>, n: Id, i: nat, k: nat, e: Entry<Id>)
    requires BaseOk(t, M) && StorePre(t, M, n, i, k, e)
    ensures BaseOk(Store(t, n, i, e), M[k := e])
  {
    StoreShape(t, M, n, i, k, e);
    StoreMap(t, M, n, i, k, e);
    forall m | m in t.nodes ensures CountOk(Store(t, n, i, e).nodes[m], M[k := e]) {
      assert CountOk(t.nodes[m], M);
      StoreCount(t, M, n, i, k, e, m);
    }
  }

  // ---------------------------------------------------------------- Erase

  ghost predicate ErasePre<Id>(t: Tree<Id>, M: Content<Id>, n: Id, i: nat, k: nat) {
    && Shape(t) && MapOk(t, M) && n in t.nodes && i < 64 && RecOk(t.nodes[n]) && t.nodes[n].shift == 0
    && k == 64 * t.nodes[n].prefix + i && k in M
  }

  lemma EraseMap<Id>(t: Tree<Id>, M: Content<Id>, n: Id, i: nat, k: nat)
    requires ErasePre(t, M, n, i, k)
    ensures MapOk(Erase(t, n, i), M - {k})
  {
    var t', M' := Erase(t, n, i), M - {k};
    RootTop(t, n);
    forall m, j | m in t'.nodes && t'.nodes[m].shift == 0 && 0 <= j < 64 ensures LeafOk(t'.nodes[m], M', j) {
      assert LeafOk(t.nodes[m], M, j);
      if t.nodes[m].prefix == t.nodes[n].prefix { Unique(t, m, n); }
    }
    forall m, l | m in t'.nodes && l in M' ensures LeadsTo(t'.nodes[m], l) {
      assert LeadsTo(t.nodes[m], l);
    }
  }

  lemma EraseCount<Id>(t: Tree<Id>, M: Content<Id>, n: Id, i: nat, k: nat, m: Id)
    requires ErasePre(t, M, n, i, k) && m in t.nodes && CountOk(t.nodes[m], M)
    ensures CountOk(Erase(t, n, i).nodes[m], M - {k})
  {
    var r, r', M' := t.nodes[m], Erase(t, n, i).nodes[m], M - {k};
    if m == n {
      OccRemove(r, r', M, i);
      ValsUpdate(r, r', i, Null);
    } else {
      if r.shift == 0 && r.prefix == t.nodes[n].prefix { Unique(t, m, n); }
      assert r.shift == 0 ==> forall j :: 0 <= j < 64 ==> (Present(M', r.prefix, j) <==> Present(M, r.prefix, j));
      assert Occ(r', M') == Occ(r, M);
    }
  }

  lemma EraseBase<Id>(t: Tree<Id>, M: Content<Id>, n: Id, i: nat, k: nat)
    requires BaseOk(t, M) && ErasePre(t, M, n, i, k)
    ensures BaseOk(Erase(t, n, i), M - {k})
  {
    var r' := Erase(t, n, i).nodes[n];
    forall j | 0 <= j < 64 ensures r'.slots[j].Data() || r'.slots[j] == Null { assert SlotOk(t.nodes, n, j); }
    LeafSlotShape(t, n, r');
    EraseMap(t, M, n, i, k);
    forall m | m in t.nodes ensures CountOk(Erase(t, n, i).nodes[m], M - {k}) {
      assert CountOk(t.nodes[m], M);
      EraseCount(t, M, n, i, k, m);
    }
  }

  // ---------------------------------------------------------------- Unlink, DropRoot

  lemma UnlinkShape<Id>(t: Tree<Id>, n: Id)
    requires Shape(t) && n in t.nodes && t.nodes[n].parent.Some? && RecOk(t.nodes[n])
    requires forall i :: 0 <= i < 64 ==> t.nodes[n].slots[i] == Null
    ensures t.nodes[n].parent.value in t.nodes && RecOk(t.nodes[t.nodes[n].parent.value])
    ensures Shape(Unlink(t, n))
  {
    var p, i := t.nodes[n].parent.value, t.nodes[n].offset;
    ParentFacts(t, n, p);
    var t' := Unlink(t, n);
    assert t.head != Internal(n);
    forall m, j | m in t'.nodes && 0 <= j < 64 ensures SlotOk(t'.nodes, m, j) {
      assert SlotOk(t.nodes, m, j);
    }
    forall m | m in t'.nodes ensures ParentOk(t', m) && RecOk(t'.nodes[m]) {
      assert ParentOk(t, m) && RecOk(t.nodes[m]);
      if t.nodes[m].parent == Some(n) { ParentFacts(t, m, n); }
    }
  }

  lemma UnlinkMap<Id>(t: Tree<Id>, M: Content<Id>, n: Id)
    requires Shape(t) && MapOk(t, M) && n in t.nodes && t.nodes[n].parent.Some? && RecOk(t.nodes[n])
    requires forall k :: k in M ==> !Covers(t.nodes[n], k)
    ensures t.nodes[n].parent.value in t.nodes && RecOk(t.nodes[t.nodes[n].parent.value])
    ensures MapOk(Unlink(t, n), M)
  {
    var p, i := t.nodes[n].parent.value, t.nodes[n].offset;
    ParentFacts(t, n, p);
    var t' := Unlink(t, n);
    assert t.head != Internal(n);
    RootTop(t, n);
    forall m, j | m in t'.nodes && t'.nodes[m].shift == 0 && 0 <= j < 64 ensures LeafOk(t'.nodes[m], M, j) {
      assert LeafOk(t.nodes[m], M, j);
    }
    forall m, k | m in t'.nodes && k in M ensures LeadsTo(t'.nodes[m], k) {
      assert LeadsTo(t.nodes[m], k);
      if m == p { ChildRange(t.nodes[p], t.nodes[n], i, k); }
    }
  }

  lemma UnlinkBase<Id>(t: Tree<Id>, M: Content<Id>, n: Id)
    requires BaseOk(t, M) && n in t.nodes && t.nodes[n].count == 0 && t.nodes[n].parent.Some?
    ensures t.nodes[n].parent.value in t.nodes && RecOk(t.nodes[n]) && RecOk(t.nodes[t.nodes[n].parent.value])
    ensures BaseOk(Unlink(t, n), M)
  {
    EmptyNode(t, M, n);
    var p, i := t.nodes[n].parent.value, t.nodes[n].offset;
    ParentFacts(t, n, p);
    UnlinkShape(t, n);
    UnlinkMap(t, M, n);
    var t' := Unlink(t, n);
    var r, r' := t.nodes[p], t'.nodes[p];
    forall m | m in t'.nodes ensures CountOk(t'.nodes[m], M) {
      assert CountOk(t.nodes[m], M);
      if m == p {
        assert Occ(r', M) == Occ(r, M) - {i};
        assert Vals(r') == Vals(r) by { assert SlotOk(t.nodes, p, i); }
      }
    }
  }

  lemma DropRootBase<Id>(t: Tree<Id>, M: Content<Id>, rootTags: set<nat>)
    requires BaseOk(t, M) && t.head.Internal? && t.nodes[t.head.node].count == 0
    ensures M == map[] && t.nodes.Keys == {t.head.node}
    ensures BaseOk(DropRoot(t, rootTags), M)
  {
    EmptyNode(t, M, t.head.node);
    forall n | n in t.nodes ensures n == t.head.node { EmptyRootAlone(t, n); }
    assert M.Keys == {};
  }

  // ---------------------------------------------------------------- Lower

  ghost predicate LowerPre<Id>(t: Tree<Id>, M: Content<Id>) {
    && Shape(t) && MapOk(t, M) && t.head.Internal? && RecOk(t.nodes[t.head.node])
    && t.nodes[t.head.node].slots[0] != Null
    && (t.idr ==> t.nodes[t.head.node].shift > 0)
    && (forall i :: 0 < i < 64 ==> t.nodes[t.head.node].slots[i] == Null)
    && (forall k :: k in M && Covers(t.nodes[t.head.node], k) ==> Digit(k, t.nodes[t.head.node].shift) == 0)
  }

  /** A leaf root is the only node. */
  lemma OnlyRoot<Id>(t: Tree<Id>, m: Id)
    requires Shape(t) && t.head.Internal? && t.nodes[t.head.node].shift == 0 && m in t.nodes
    ensures m == t.head.node
  {
    RootTop(t, m);
  }

  lemma LowerShape<Id>(t: Tree<Id>, M: Content<Id>, rootTags: set<nat>)
    requires LowerPre(t, M)
    ensures var e := t.nodes[t.head.node].slots[0]; e.Internal? ==> e.node in t.nodes
    ensures Shape(Lower(t, rootTags))
  {
    var n := t.head.node;
    var e := t.nodes[n].slots[0];
    assert SlotOk(t.nodes, n, 0);
    var t' := Lower(t, rootTags);
    forall m | m in t'.nodes ensures e.Internal? {
      if !e.Internal? { OnlyRoot(t, m); }
    }
    forall m, j | m in t'.nodes && 0 <= j < 64 ensures SlotOk(t'.nodes, m, j) {
      assert SlotOk(t.nodes, m, j);
    }
    forall m | m in t'.nodes ensures ParentOk(t', m) && RecOk(t'.nodes[m]) {
      assert ParentOk(t, m) && RecOk(t.nodes[m]);
      if t.nodes[m].parent == Some(n) { ParentFacts(t, m, n); }
    }
  }

  lemma LowerMap<Id>(t: Tree<Id>, M: Content<Id>, rootTags: set<nat>)
    requires LowerPre(t, M)
    ensures var e := t.nodes[t.head.node].slots[0]; e.Internal? ==> e.node in t.nodes
    ensures MapOk(Lower(t, rootTags), M)
  {
    var n := t.head.node;
    var r, e := t.nodes[n], t.nodes[n].slots[0];
    assert SlotOk(t.nodes, n, 0);
    var t' := Lower(t, rootTags);
    forall m, j | m in t'.nodes && t'.nodes[m].shift == 0 && 0 <= j < 64 ensures LeafOk(t'.nodes[m], M, j) {
      assert LeafOk(t.nodes[m], M, j);
    }
    forall m, k | m in t'.nodes && k in M ensures LeadsTo(t'.nodes[m], k) {
      assert LeadsTo(t.nodes[m], k);
    }
    if e.Internal? {
      forall k | k in M ensures Covers(t'.nodes[e.node], k) { ChildRange(r, t.nodes[e.node], 0, k); }
    } else {
      assert LeafOk(r, M, 0);
      forall k | k in M ensures k == 0 { assert Covers(r, k); LeafKey(r, k); }
      assert M == map[0 := e];
    }
  }

  lemma LowerBase<Id>(t: Tree<Id>, M: Content<Id>, rootTags: set<nat>)
    requires BaseOk(t, M) && t.head.Internal? && RecOk(t.nodes[t.head.node])
    requires t.nodes[t.head.node].count == 1 && t.nodes[t.head.node].slots[0] != Null
    requires t.idr ==> t.nodes[t.head.node].shift > 0
    ensures LowerPre(t, M)
    ensures var e := t.nodes[t.head.node].slots[0]; e.Internal? ==> e.node in t.nodes
    ensures BaseOk(Lower(t, rootTags), M)
  {
    OnlyZero(t, M, t.head.node);
    LowerShape(t, M, rootTags);
    LowerMap(t, M, rootTags);
    var t' := Lower(t, rootTags);
    forall m | m in t'.nodes ensures CountOk(t'.nodes[m], M) {
      assert CountOk(t.nodes[m], M);
      assert Occ(t'.nodes[m], M) == Occ(t.nodes[m], M) && Vals(t'.nodes[m]) == Vals(t.nodes[m]);
    }
  }
}
