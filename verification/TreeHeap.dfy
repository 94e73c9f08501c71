/** The radix tree as a heap of node records, its invariants, and what each pointer store of the
    tree code does to them. `Id` names nodes: object references in the sequential model, numbers
    in the lockless one. A record's `prefix` is ghost information: the index bits above the node,
    so node n covers exactly the indices k with k >> (n.shift + 6) == n.prefix. */
module TreeHeap {
  import opened Words

  datatype Option<+T> = None | Some(value: T)

  /** What a slot holds: the tag bits of the C pointer decoded. */
  datatype Entry<Id> = Null | Item(ptr: nat) | Value(val: nat) | Internal(node: Id) | Retry
  {
    ghost predicate Data() { Item? || Value? }
  }

  datatype Rec<Id> = Rec(
    slots: seq<Entry<Id>>, count: int, nrValues: int, shift: nat, offset: nat,
    parent: Option<Id>, tags: seq<set<nat>>, prefix: nat)

  type Heap<Id> = map<Id, Rec<Id>>
  type Content<Id> = map<nat, Entry<Id>>

  datatype Tree<Id> = Tree(head: Entry<Id>, nodes: Heap<Id>, rootTags: set<nat>, idr: bool)

  const MAX_TAGS: nat := 3
  /** IDR_FREE is tag 0. */
  const FREE: nat := 0

  predicate IsSlot(i: nat) { i < 64 }
  function AllSlots(): set<nat> { set i: nat | 0 <= i < 64 && IsSlot(i) }
  function NoSlots<Id>(): seq<Entry<Id>> { seq(64, _ => Null) }
  function NoTags(): seq<set<nat>> { [{}, {}, {}] }
  /** Tags of a node created empty: all_tag_set(node, IDR_FREE) in an IDR. */
  function FreshTags(idr: bool): seq<set<nat>> { if idr then [AllSlots(), {}, {}] else NoTags() }

  ghost predicate Covers<Id>(r: Rec<Id>, k: nat) { Shr(k, r.shift + 6) == r.prefix }

  // ---------------------------------------------------------------- shape

  ghost predicate RecOk<Id>(r: Rec<Id>) {
    && |r.slots| == 64 && r.shift % 6 == 0 && r.shift <= 60 && r.offset < 64
    && |r.tags| == MAX_TAGS
    && forall g, i :: 0 <= g < MAX_TAGS && i in r.tags[g] ==> i < 64
  }

  ghost predicate SlotOk<Id>(h: Heap<Id>, n: Id, i: nat)
    requires n in h
  {
    var r := h[n];
    i < |r.slots| &&
    match r.slots[i]
    case Null => true
    case Item(_) => r.shift == 0
    case Value(_) => r.shift == 0
    case Retry => false
    case Internal(c) =>
      r.shift > 0 && c in h && h[c].parent == Some(n) && h[c].offset == i &&
      h[c].shift + 6 == r.shift && h[c].prefix == 64 * r.prefix + i
  }

  ghost predicate ParentOk<Id>(t: Tree<Id>, n: Id)
    requires n in t.nodes
  {
    var r := t.nodes[n];
    match r.parent
    case None => t.head == Internal(n)
    case Some(p) => p in t.nodes && r.offset < |t.nodes[p].slots| && t.nodes[p].slots[r.offset] == Internal(n)
  }

  ghost predicate HeadOk<Id>(t: Tree<Id>) {
    match t.head
    case Null => t.nodes == map[]
    case Item(_) => t.nodes == map[] && !t.idr
    case Value(_) => t.nodes == map[] && !t.idr
    case Retry => false
    case Internal(n) =>
      n in t.nodes && t.nodes[n].parent == None && t.nodes[n].prefix == 0 && t.nodes[n].offset == 0
  }

  ghost predicate Shape<Id>(t: Tree<Id>) {
    && HeadOk(t)
    && (forall n {:trigger RecOk(t.nodes[n])} :: n in t.nodes ==> RecOk(t.nodes[n]))
    && (forall n {:trigger ParentOk(t, n)} :: n in t.nodes ==> ParentOk(t, n))
    && (forall n, i {:trigger SlotOk(t.nodes, n, i)} :: n in t.nodes && 0 <= i < 64 ==> SlotOk(t.nodes, n, i))
  }

  /** The shift above the head: what radix_tree_load_root returns. */
  ghost function HeadShift<Id>(t: Tree<Id>): nat {
    if t.head.Internal? && t.head.node in t.nodes then t.nodes[t.head.node].shift + 6 else 0
  }

  // ---------------------------------------------------------------- contents

  /** Leaf slot i holds the entry of its index, and NULL when the index is absent. */
  ghost predicate LeafOk<Id>(r: Rec<Id>, M: Content<Id>, i: nat) {
    var k := 64 * r.prefix + i;
    i < |r.slots| && if k in M then r.slots[i] == M[k] else r.slots[i] == Null
  }

  /** An inner node that covers a present index leads on towards it. */
  ghost predicate LeadsTo<Id>(r: Rec<Id>, k: nat) {
    r.shift > 0 && Covers(r, k) ==>
      Digit(k, r.shift) < |r.slots| && r.slots[Digit(k, r.shift)] != Null
  }

  ghost predicate HeadMapOk<Id>(t: Tree<Id>, M: Content<Id>) {
    match t.head
    case Null => M == map[]
    case Item(_) => M == map[0 := t.head]
    case Value(_) => M == map[0 := t.head]
    case Retry => false
    case Internal(n) => n in t.nodes && forall k :: k in M ==> Covers(t.nodes[n], k)
  }

  ghost predicate DataOk<Id>(idr: bool, M: Content<Id>) {
    forall k :: k in M ==> k < WORD && (M[k].Data() || (idr && M[k] == Null))
  }

  ghost predicate MapOk<Id>(t: Tree<Id>, M: Content<Id>) {
    && HeadMapOk(t, M) && DataOk(t.idr, M)
    && (forall n, i {:trigger LeafOk(t.nodes[n], M, i)} ::
          n in t.nodes && t.nodes[n].shift == 0 && 0 <= i < 64 ==> LeafOk(t.nodes[n], M, i))
    && (forall n, k {:trigger LeadsTo(t.nodes[n], k)} :: n in t.nodes && k in M ==> LeadsTo(t.nodes[n], k))
  }

  // ---------------------------------------------------------------- counts

  ghost predicate Present<Id>(M: Content<Id>, prefix: nat, i: nat) { 64 * prefix + i in M }

  /** The slots a node's count counts: children of an inner node, present indices of a leaf. */
  ghost function Occ<Id>(r: Rec<Id>, M: Content<Id>): set<nat> {
    if r.shift > 0 then set i: nat | 0 <= i < |r.slots| && r.slots[i] != Null
    else set i: nat | 0 <= i < 64 && Present(M, r.prefix, i)
  }

  ghost function Vals<Id>(r: Rec<Id>): set<nat> {
    set i: nat | 0 <= i < |r.slots| && r.slots[i].Value?
  }

  ghost predicate CountOk<Id>(r: Rec<Id>, M: Content<Id>) {
    r.count == |Occ(r, M)| && r.nrValues == |Vals(r)|
  }

  ghost predicate BaseOk<Id>(t: Tree<Id>, M: Content<Id>) {
    Shape(t) && MapOk(t, M) &&
    forall n {:trigger CountOk(t.nodes[n], M)} :: n in t.nodes ==> CountOk(t.nodes[n], M)
  }

  // ---------------------------------------------------------------- structure lemmas

  lemma InRange<Id>(t: Tree<Id>, M: Content<Id>, k: nat)
    requires BaseOk(t, M) && k in M
    ensures Shr(k, HeadShift(t)) == 0
  {
    if t.head.Internal? { assert Covers(t.nodes[t.head.node], k); }
  }

  /** The child in slot i of a node covers the indices the node covers whose digit is i. */
  lemma ChildRange<Id>(r: Rec<Id>, c: Rec<Id>, i: nat, k: nat)
    requires c.shift + 6 == r.shift && c.prefix == 64 * r.prefix + i && i < 64
    ensures Covers(c, k) <==> Covers(r, k) && Digit(k, r.shift) == i
  {
    assert Shr(k, r.shift + 6) == Shr(k, r.shift) / 64;
  }

  /** A leaf covers 64 * prefix .. 64 * prefix + 63, and an index's slot is its low six bits. */
  lemma LeafKey<Id>(r: Rec<Id>, k: nat)
    requires r.shift == 0
    ensures Covers(r, k) <==> k / 64 == r.prefix
    ensures Covers(r, k) <==> k == 64 * r.prefix + Digit(k, 0)
    ensures Digit(k, 0) == k % 64
  {
    assert Shr(k, 6) == Shr(k, 0) / 64;
  }

  /** The root is the one node of greatest shift. */
  lemma {:induction false} RootTop<Id>(t: Tree<Id>, n: Id)
    requires Shape(t) && n in t.nodes
    ensures t.head.Internal? && t.head.node in t.nodes
    ensures n == t.head.node || t.nodes[n].shift < t.nodes[t.head.node].shift
    decreases 60 - t.nodes[n].shift
  {
    assert ParentOk(t, n) && RecOk(t.nodes[n]);
    match t.nodes[n].parent
    case None =>
    case Some(p) =>
      assert SlotOk(t.nodes, p, t.nodes[n].offset);
      assert RecOk(t.nodes[p]);
      RootTop(t, p);
  }

  lemma ParentFacts<Id>(t: Tree<Id>, n: Id, p: Id)
    requires Shape(t) && n in t.nodes && t.nodes[n].parent == Some(p)
    ensures p in t.nodes && RecOk(t.nodes[p]) && RecOk(t.nodes[n])
    ensures t.nodes[p].shift == t.nodes[n].shift + 6
    ensures t.nodes[n].prefix == 64 * t.nodes[p].prefix + t.nodes[n].offset
    ensures t.nodes[p].slots[t.nodes[n].offset] == Internal(n)
  {
    assert ParentOk(t, n) && RecOk(t.nodes[n]) && RecOk(t.nodes[p]);
    assert SlotOk(t.nodes, p, t.nodes[n].offset);
  }

  /** Shift and prefix identify a node. */
  lemma {:induction false} Unique<Id>(t: Tree<Id>, a: Id, b: Id)
    requires Shape(t) && a in t.nodes && b in t.nodes
    requires t.nodes[a].shift == t.nodes[b].shift && t.nodes[a].prefix == t.nodes[b].prefix
    ensures a == b
    decreases 60 - t.nodes[a].shift
  {
    RootTop(t, a);
    RootTop(t, b);
    if a != t.head.node && b != t.head.node {
      assert ParentOk(t, a) && ParentOk(t, b);
      var pa, pb := t.nodes[a].parent.value, t.nodes[b].parent.value;
      ParentFacts(t, a, pa);
      ParentFacts(t, b, pb);
      Unique(t, pa, pb);
    }
  }

  /** The parent of a node covering k covers k, and leads to the node at k's digit. */
  lemma ParentCovers<Id>(t: Tree<Id>, n: Id, p: Id, k: nat)
    requires Shape(t) && n in t.nodes && t.nodes[n].parent == Some(p) && Covers(t.nodes[n], k)
    ensures p in t.nodes && RecOk(t.nodes[p]) && t.nodes[p].shift == t.nodes[n].shift + 6
    ensures Covers(t.nodes[p], k)
    ensures t.nodes[n].offset == Digit(k, t.nodes[p].shift)
    ensures t.nodes[p].slots[Digit(k, t.nodes[p].shift)] == Internal(n)
  {
    ParentFacts(t, n, p);
  }

  /** The child at k's digit covers k. */
  lemma ChildCovers<Id>(t: Tree<Id>, n: Id, k: nat)
    requires Shape(t) && n in t.nodes && Covers(t.nodes[n], k)
    requires RecOk(t.nodes[n]) && t.nodes[n].slots[Digit(k, t.nodes[n].shift)].Internal?
    ensures t.nodes[n].shift >= 6
    ensures var c := t.nodes[n].slots[Digit(k, t.nodes[n].shift)].node;
      c in t.nodes && Covers(t.nodes[c], k) && t.nodes[c].shift + 6 == t.nodes[n].shift && t.nodes[c].parent == Some(n)
  {
    assert SlotOk(t.nodes, n, Digit(k, t.nodes[n].shift));
    var c := t.nodes[n].slots[Digit(k, t.nodes[n].shift)].node;
    assert RecOk(t.nodes[c]);
  }

  /** Every node above n that covers an index n covers has a child on the way to n. */
  lemma {:induction false} PathInternal<Id>(t: Tree<Id>, n: Id, m: Id, k: nat)
    requires Shape(t) && n in t.nodes && m in t.nodes
    requires Covers(t.nodes[n], k) && Covers(t.nodes[m], k) && t.nodes[m].shift > t.nodes[n].shift
    requires RecOk(t.nodes[m])
    ensures t.nodes[m].slots[Digit(k, t.nodes[m].shift)].Internal?
    decreases 60 - t.nodes[n].shift
  {
    RootTop(t, m);
    RootTop(t, n);
    assert ParentOk(t, n);
    var p := t.nodes[n].parent.value;
    ParentCovers(t, n, p, k);
    if t.nodes[m].shift == t.nodes[p].shift {
      Unique(t, p, m);
    } else {
      assert RecOk(t.nodes[m]) && RecOk(t.nodes[p]);
      PathInternal(t, p, m, k);
    }
  }

  /** Every present index has its leaf. */
  lemma {:induction false} LeafOf<Id>(t: Tree<Id>, M: Content<Id>, n: Id, k: nat) returns (leaf: Id)
    requires BaseOk(t, M) && n in t.nodes && k in M && Covers(t.nodes[n], k)
    ensures leaf in t.nodes && t.nodes[leaf].shift == 0 && Covers(t.nodes[leaf], k)
    decreases t.nodes[n].shift
  {
    if t.nodes[n].shift == 0 {
      leaf := n;
    } else {
      assert RecOk(t.nodes[n]) && LeadsTo(t.nodes[n], k) && SlotOk(t.nodes, n, Digit(k, t.nodes[n].shift));
      ChildCovers(t, n, k);
      leaf := LeafOf(t, M, t.nodes[n].slots[Digit(k, t.nodes[n].shift)].node, k);
    }
  }

  /** A root whose slots are all empty is alone. */
  lemma {:induction false} EmptyRootAlone<Id>(t: Tree<Id>, n: Id)
    requires Shape(t) && t.head.Internal? && n in t.nodes && RecOk(t.nodes[t.head.node])
    requires forall i :: 0 <= i < 64 ==> t.nodes[t.head.node].slots[i] == Null
    ensures n == t.head.node
    decreases 60 - t.nodes[n].shift
  {
    assert ParentOk(t, n);
    if t.nodes[n].parent.Some? {
      var p := t.nodes[n].parent.value;
      ParentFacts(t, n, p);
      EmptyRootAlone(t, p);
    }
  }
}
