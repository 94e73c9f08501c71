/** The tag summary: which bit every slot must carry, and how each step keeps it so.
    `K[g]` is the set of indices marked with tag g. In an ordinary tree those are tagged items;
    in an IDR, tag 0 (IDR_FREE) marks exactly the absent indices. */
module TreeTags {
  import opened Words
  import opened TreeHeap
  import opened TreeSteps

  type Marks = seq<iset<nat>>

  /** Slot `slot` of node `node`, in the bitmap of tag `tag`. */
  datatype Bit<Id> = Bit(tag: nat, node: Id, slot: nat)

  ghost predicate MarksOk<Id>(idr: bool, M: Content<Id>, K: Marks) {
    && |K| == MAX_TAGS
    && (!idr ==> forall g, k :: 0 <= g < MAX_TAGS && k in K[g] ==> k in M)
    && (idr ==> K[1] == iset{} && K[2] == iset{} && forall k: nat :: k in K[FREE] <==> k !in M)
  }

  /** What the bit of a slot must be: for a leaf, whether the index is marked; for a child,
      whether any of its bits is set; for an empty inner slot, set only for IDR_FREE. */
  ghost predicate Want<Id>(t: Tree<Id>, K: Marks, g: nat, n: Id, i: nat)
    requires n in t.nodes && g < |K|
  {
    var r := t.nodes[n];
    if r.shift == 0 then 64 * r.prefix + i in K[g]
    else if i < |r.slots| && r.slots[i].Internal? && r.slots[i].node in t.nodes && g < |t.nodes[r.slots[i].node].tags|
    then t.nodes[r.slots[i].node].tags[g] != {}
    else t.idr && g == FREE
  }

  ghost predicate BitOk<Id>(t: Tree<Id>, K: Marks, g: nat, n: Id, i: nat)
    requires n in t.nodes && g < |K|
  {
    g < |t.nodes[n].tags| && (i in t.nodes[n].tags[g] <==> Want(t, K, g, n, i))
  }

  /** Every bit is right, except possibly the one being worked on. */
  ghost predicate BitsOk<Id>(t: Tree<Id>, K: Marks, skip: Option<Bit<Id>>) {
    && |K| == MAX_TAGS
    && forall n, i, g {:trigger BitOk(t, K, g, n, i)} ::
      n in t.nodes && 0 <= i < 64 && 0 <= g < MAX_TAGS && skip != Some(Bit(g, n, i)) ==> BitOk(t, K, g, n, i)
  }

  ghost predicate RootBitOk<Id>(t: Tree<Id>, K: Marks, g: nat)
    requires g < |K|
  {
    g in t.rootTags <==>
      match t.head
      case Null => t.idr && g == FREE
      case Item(_) => 0 in K[g]
      case Value(_) => 0 in K[g]
      case Retry => false
      case Internal(n) => n in t.nodes && g < |t.nodes[n].tags| && t.nodes[n].tags[g] != {}
  }

  /** Every root tag is right, except possibly tag `skip`. */
  ghost predicate RootBitsOk<Id>(t: Tree<Id>, K: Marks, skip: Option<nat>) {
    && |K| == MAX_TAGS
    && forall g {:trigger RootBitOk(t, K, g)} :: 0 <= g < MAX_TAGS && skip != Some(g) ==> RootBitOk(t, K, g)
  }

  ghost predicate TagsOk<Id>(t: Tree<Id>, K: Marks) {
    BitsOk(t, K, None) && RootBitsOk(t, K, None)
  }

  /** The invariant of a tree between operations, short of minimal shape. */
  ghost predicate TreeOk<Id>(t: Tree<Id>, M: Content<Id>, K: Marks) {
    BaseOk(t, M) && MarksOk(t.idr, M, K) && TagsOk(t, K)
  }

  // ---------------------------------------------------------------- single bits

  function Retag<Id>(t: Tree<Id>, n: Id, tags: seq<set<nat>>): Tree<Id>
    requires n in t.nodes
  {
    t.(nodes := t.nodes[n := t.nodes[n].(tags := tags)])
  }

  function SetBit<Id>(t: Tree<Id>, b: Bit<Id>): Tree<Id>
    requires b.node in t.nodes && b.tag < |t.nodes[b.node].tags|
  {
    var tags := t.nodes[b.node].tags;
    Retag(t, b.node, tags[b.tag := tags[b.tag] + {b.slot}])
  }

  function ClearBit<Id>(t: Tree<Id>, b: Bit<Id>): Tree<Id>
    requires b.node in t.nodes && b.tag < |t.nodes[b.node].tags|
  {
    var tags := t.nodes[b.node].tags;
    Retag(t, b.node, tags[b.tag := tags[b.tag] - {b.slot}])
  }

  lemma RetagBase<Id>(t: Tree<Id>, M: Content<Id>, n: Id, tags: seq<set<nat>>)
    requires BaseOk(t, M) && n in t.nodes && RecOk(t.nodes[n].(tags := tags))
    ensures BaseOk(Retag(t, n, tags), M)
  {
    var t' := Retag(t, n, tags);
    assert Shape(t') by {
      forall m, j | m in t'.nodes && 0 <= j < 64 ensures SlotOk(t'.nodes, m, j) { assert SlotOk(t.nodes, m, j); }
      forall m | m in t'.nodes ensures ParentOk(t', m) && RecOk(t'.nodes[m]) {
        assert ParentOk(t, m) && RecOk(t.nodes[m]);
      }
    }
    assert MapOk(t', M) by {
      forall m, j | m in t'.nodes && t'.nodes[m].shift == 0 && 0 <= j < 64 ensures LeafOk(t'.nodes[m], M, j) {
        assert LeafOk(t.nodes[m], M, j);
      }
      forall m, k | m in t'.nodes && k in M ensures LeadsTo(t'.nodes[m], k) { assert LeadsTo(t.nodes[m], k); }
    }
    forall m | m in t'.nodes ensures CountOk(t'.nodes[m], M) {
      assert CountOk(t.nodes[m], M);
      assert Occ(t'.nodes[m], M) == Occ(t.nodes[m], M) && Vals(t'.nodes[m]) == Vals(t.nodes[m]);
    }
  }

  /** Setting a bit that should be set leaves at most the bit above it to be set. */
  lemma SetBitUp<Id>(t: Tree<Id>, K: Marks, b: Bit<Id>)
    requires Shape(t) && b.node in t.nodes && b.tag < MAX_TAGS && b.slot < 64 && RecOk(t.nodes[b.node])
    requires BitsOk(t, K, Some(b)) && Want(t, K, b.tag, b.node, b.slot)
    ensures var t' := SetBit(t, b);
      var r := t.nodes[b.node];
      && (r.parent.None? ==> BitsOk(t', K, None))
      && (r.parent.Some? ==> BitsOk(t', K, Some(Bit(b.tag, r.parent.value, r.offset))))
  {
    var t', r := SetBit(t, b), t.nodes[b.node];
    forall m, i, g {:trigger BitOk(t', K, g, m, i)} | m in t'.nodes && 0 <= i < 64 && 0 <= g < MAX_TAGS &&
      !(r.parent == Some(m) && g == b.tag && i == r.offset)
      ensures BitOk(t', K, g, m, i)
    {
      BitBeside(t, t', K, b, m, i, g);
    }
  }

  /** A change of one bit leaves all bits right but the one above. */
  lemma BitBeside<Id>(t: Tree<Id>, t': Tree<Id>, K: Marks, b: Bit<Id>, m: Id, i: nat, g: nat)
    requires Shape(t) && b.node in t.nodes && b.tag < MAX_TAGS && b.slot < 64 && RecOk(t.nodes[b.node])
    requires BitsOk(t, K, Some(b)) && m in t.nodes && i < 64 && g < MAX_TAGS
    requires t' == if Want(t, K, b.tag, b.node, b.slot) then SetBit(t, b) else ClearBit(t, b)
    requires var r := t.nodes[b.node];
      || !(r.parent == Some(m) && g == b.tag && i == r.offset)
      || ((b.slot in r.tags[b.tag]) && t'.nodes[b.node].tags[b.tag] != {})
    ensures BitOk(t', K, g, m, i)
  {
    assert ParentOk(t, b.node) && RecOk(t.nodes[m]) && SlotOk(t.nodes, m, i);
    if Bit(g, m, i) != b { assert BitOk(t, K, g, m, i); }
  }

  /** Clearing a bit that should be clear leaves at most the bit above it to be cleared, and not
      even that when another bit of the node stays set. */
  lemma ClearBitUp<Id>(t: Tree<Id>, K: Marks, b: Bit<Id>)
    requires Shape(t) && b.node in t.nodes && b.tag < MAX_TAGS && b.slot < 64 && RecOk(t.nodes[b.node])
    requires BitsOk(t, K, Some(b)) && !Want(t, K, b.tag, b.node, b.slot) && b.slot in t.nodes[b.node].tags[b.tag]
    ensures var t' := ClearBit(t, b);
      var r := t.nodes[b.node];
      && (r.parent.None? || t'.nodes[b.node].tags[b.tag] != {} ==> BitsOk(t', K, None))
      && (r.parent.Some? ==> BitsOk(t', K, Some(Bit(b.tag, r.parent.value, r.offset))))
  {
    var t', r := ClearBit(t, b), t.nodes[b.node];
    forall m, i, g {:trigger BitOk(t', K, g, m, i)} | m in t'.nodes && 0 <= i < 64 && 0 <= g < MAX_TAGS &&
      (!(r.parent == Some(m) && g == b.tag && i == r.offset) || t'.nodes[b.node].tags[b.tag] != {})
      ensures BitOk(t', K, g, m, i)
    {
      BitBeside(t, t', K, b, m, i, g);
    }
  }

  /** Setting the bit of a node on the way down: the bit above it becomes right, this one may not be yet. */
  lemma SetBitDown<Id>(t: Tree<Id>, K: Marks, above: Option<Bit<Id>>, b: Bit<Id>)
    requires Shape(t) && b.node in t.nodes && b.tag < MAX_TAGS && b.slot < 64 && RecOk(t.nodes[b.node])
    requires BitsOk(t, K, above)
    requires match above
      case None => t.nodes[b.node].parent.None?
      case Some(a) => (
        && a.node in t.nodes && t.nodes[b.node].parent == Some(a.node) && a.slot == t.nodes[b.node].offset
        && a.tag == b.tag && a.tag < |t.nodes[a.node].tags| && a.slot in t.nodes[a.node].tags[a.tag])
    ensures BitsOk(SetBit(t, b), K, Some(b))
  {
    var t', r := SetBit(t, b), t.nodes[b.node];
    assert ParentOk(t, b.node);
    if r.parent.Some? { ParentFacts(t, b.node, r.parent.value); }
    forall m, i, g | m in t'.nodes && 0 <= i < 64 && 0 <= g < MAX_TAGS && Bit(g, m, i) != b
      ensures BitOk(t', K, g, m, i)
    {
      assert RecOk(t.nodes[m]) && SlotOk(t.nodes, m, i);
      if above != Some(Bit(g, m, i)) { assert BitOk(t, K, g, m, i); }
    }
  }

  /** Marking or unmarking one index only disturbs the bit of its leaf slot. */
  lemma Remark<Id>(t: Tree<Id>, K: Marks, K': Marks, g: nat, n: Id, k: nat)
    requires Shape(t) && BitsOk(t, K, None) && n in t.nodes && t.nodes[n].shift == 0 && Covers(t.nodes[n], k) &&
      g < MAX_TAGS
    requires |K'| == MAX_TAGS && forall g', k' :: 0 <= g' < MAX_TAGS && (g' != g || k' != k) ==>
      (k' in K'[g'] <==> k' in K[g'])
    ensures BitsOk(t, K', Some(Bit(g, n, Digit(k, 0))))
  {
    LeafKey(t.nodes[n], k);
    forall m, i, g' | m in t.nodes && 0 <= i < 64 && 0 <= g' < MAX_TAGS && Bit(g', m, i) != Bit(g, n, Digit(k, 0))
      ensures BitOk(t, K', g', m, i)
    {
      assert BitOk(t, K, g', m, i);
      if t.nodes[m].shift == 0 && t.nodes[m].prefix == t.nodes[n].prefix { Unique(t, m, n); }
    }
  }

  // ---------------------------------------------------------------- structural steps

  lemma AddChildTags<Id>(t: Tree<Id>, M: Content<Id>, K: Marks, p: Id, i: nat, n: Id)
    requires TreeOk(t, M, K) && p in t.nodes && n !in t.nodes && i < 64
    requires RecOk(t.nodes[p]) && t.nodes[p].shift >= 6 && t.nodes[p].slots[i] == Null
    ensures TreeOk(AddChild(t, p, i, n), M, K)
  {
    AddChildBase(t, M, p, i, n);
    AddChildMap(t, M, p, i, n);
    var t' := AddChild(t, p, i, n);
    var c := t'.nodes[n];
    assert AllSlots() != {} by { assert IsSlot(0) && 0 in AllSlots(); }
    forall m, j, g | m in t'.nodes && 0 <= j < 64 && 0 <= g < MAX_TAGS ensures BitOk(t', K, g, m, j) {
      if m == n {
        if c.shift == 0 { LeafKey(c, 64 * c.prefix + j); }
        assert IsSlot(j);
      } else {
        assert RecOk(t.nodes[m]) && SlotOk(t.nodes, m, j) && BitOk(t, K, g, m, j);
      }
    }
    forall g | 0 <= g < MAX_TAGS ensures RootBitOk(t', K, g) { assert RootBitOk(t, K, g); }
  }

  lemma AddRootTags<Id>(t: Tree<Id>, M: Content<Id>, K: Marks, n: Id, shift: nat)
    requires TreeOk(t, M, K) && t.head == Null && shift % 6 == 0 && shift <= 60
    ensures TreeOk(AddRoot(t, n, shift), M, K)
  {
    AddRootBase(t, M, n, shift);
    var t' := AddRoot(t, n, shift);
    assert AllSlots() != {} by { assert IsSlot(0) && 0 in AllSlots(); }
    forall m, j, g | m in t'.nodes && 0 <= j < 64 && 0 <= g < MAX_TAGS ensures BitOk(t', K, g, m, j) {
      assert IsSlot(j);
      assert t'.nodes[m].prefix == 0 && j !in M;
    }
    forall g | 0 <= g < MAX_TAGS ensures RootBitOk(t', K, g) { assert RootBitOk(t, K, g); }
  }

  /** The tags of the new root in radix_tree_extend: slot 0 inherits the root tags; in an IDR the
      other slots are free. */
  ghost predicate NewRootTags(idr: bool, rootTags: set<nat>, tags: seq<set<nat>>, rootTags': set<nat>) {
    && |tags| == MAX_TAGS
    && (forall g, i :: 0 <= g < MAX_TAGS && i in tags[g] ==> i < 64)
    && (forall g :: 0 <= g < MAX_TAGS ==> (0 in tags[g] <==> g in rootTags))
    && (forall g, i :: 0 <= g < MAX_TAGS && 0 < i < 64 ==> (i in tags[g] <==> idr && g == FREE))
    && rootTags' == if idr then rootTags + {FREE} else rootTags
  }

  lemma GrowTags<Id>(t: Tree<Id>, M: Content<Id>, K: Marks, n: Id, shift: nat, tags: seq<set<nat>>, rootTags: set<nat>)
    requires TreeOk(t, M, K) && GrowPre(t, n, shift, tags) && NewRootTags(t.idr, t.rootTags, tags, rootTags)
    ensures TreeOk(Grow(t, n, shift, tags, rootTags), M, K)
  {
    GrowBase(t, M, n, shift, tags, rootTags);
    var t' := Grow(t, n, shift, tags, rootTags);
    forall m, j, g | m in t'.nodes && 0 <= j < 64 && 0 <= g < MAX_TAGS ensures BitOk(t', K, g, m, j) {
      if m == n {
        assert RootBitOk(t, K, g);
        assert j in tags[g] <==> if j == 0 then g in t.rootTags else t.idr && g == FREE;
        if shift == 0 {
          assert !t.idr && (j in M <==> j == 0);
          assert j in tags[g] <==> 64 * 0 + j in K[g];
        } else {
          assert RecOk(t.nodes[t.head.node]);
        }
      } else {
        assert RecOk(t.nodes[m]) && SlotOk(t.nodes, m, j) && BitOk(t, K, g, m, j);
      }
    }
    forall g | 0 <= g < MAX_TAGS ensures RootBitOk(t', K, g) {
      assert RootBitOk(t, K, g);
      if t.idr && g == FREE { assert 1 in tags[g]; }
      if g in rootTags && !(t.idr && g == FREE) { assert 0 in tags[g]; }
      if !(t.idr && g == FREE) && tags[g] != {} { var i :| i in tags[g]; assert i == 0; }
    }
  }

  /** Storing an entry that was absent, in a tree without IDR_FREE accounting: the three tags of the
      slot are clear, as the BUG_ONs in radix_tree_insert check. */
  lemma StoreTags<Id>(t: Tree<Id>, M: Content<Id>, K: Marks, n: Id, i: nat, k: nat, e: Entry<Id>)
    requires TreeOk(t, M, K) && !t.idr && StorePre(t, M, n, i, k, e)
    ensures TreeOk(Store(t, n, i, e), M[k := e], K)
    ensures forall g :: 0 <= g < MAX_TAGS ==> i !in t.nodes[n].tags[g]
  {
    StoreBase(t, M, n, i, k, e);
    SlotStoreBits(t, K, n, Store(t, n, i, e).nodes[n], None);
    forall g | 0 <= g < MAX_TAGS ensures i !in t.nodes[n].tags[g] { assert BitOk(t, K, g, n, i); }
    forall g | 0 <= g < MAX_TAGS ensures RootBitOk(Store(t, n, i, e), K, g) { assert RootBitOk(t, K, g); }
  }

  /** Changing what a leaf slot holds disturbs no bit. */
  lemma SlotStoreBits<Id>(t: Tree<Id>, K: Marks, n: Id, r': Rec<Id>, skip: Option<Bit<Id>>)
    requires Shape(t) && BitsOk(t, K, skip) && n in t.nodes && t.nodes[n].shift == 0
    requires r' == t.nodes[n].(slots := r'.slots, count := r'.count, nrValues := r'.nrValues)
    ensures BitsOk(t.(nodes := t.nodes[n := r']), K, skip)
    ensures forall g :: 0 <= g < MAX_TAGS && RootBitOk(t, K, g) ==> RootBitOk(t.(nodes := t.nodes[n := r']), K, g)
  {
    var t' := t.(nodes := t.nodes[n := r']);
    forall m, j, g | m in t'.nodes && 0 <= j < 64 && 0 <= g < MAX_TAGS && skip != Some(Bit(g, m, j))
      ensures BitOk(t', K, g, m, j)
    {
      assert RecOk(t.nodes[m]) && SlotOk(t.nodes, m, j) && BitOk(t, K, g, m, j);
    }
  }

  /** An empty node carries no tags, or in an IDR only IDR_FREE. */
  lemma EmptyNodeTags<Id>(t: Tree<Id>, M: Content<Id>, K: Marks, n: Id, g: nat)
    requires TreeOk(t, M, K) && n in t.nodes && t.nodes[n].count == 0 && g < MAX_TAGS && RecOk(t.nodes[n])
    ensures t.nodes[n].tags[g] != {} <==> t.idr && g == FREE
  {
    var r := t.nodes[n];
    EmptyNode(t, M, n);
    forall i | 0 <= i < 64 ensures i in r.tags[g] <==> t.idr && g == FREE {
      assert BitOk(t, K, g, n, i);
      if r.shift == 0 { LeafKey(r, 64 * r.prefix + i); }
    }
    assert 0 in r.tags[g] <==> t.idr && g == FREE;
    if r.tags[g] != {} { var i :| i in r.tags[g]; }
  }

  lemma UnlinkTags<Id>(t: Tree<Id>, M: Content<Id>, K: Marks, n: Id)
    requires TreeOk(t, M, K) && n in t.nodes && t.nodes[n].count == 0 && t.nodes[n].parent.Some?
    ensures t.nodes[n].parent.value in t.nodes && RecOk(t.nodes[n]) && RecOk(t.nodes[t.nodes[n].parent.value])
    ensures TreeOk(Unlink(t, n), M, K)
  {
    UnlinkBase(t, M, n);
    ParentFacts(t, n, t.nodes[n].parent.value);
    var t' := Unlink(t, n);
    forall m, j, g | m in t'.nodes && 0 <= j < 64 && 0 <= g < MAX_TAGS ensures BitOk(t', K, g, m, j) {
      assert RecOk(t.nodes[m]) && SlotOk(t.nodes, m, j) && BitOk(t, K, g, m, j);
      EmptyNodeTags(t, M, K, n, g);
    }
    forall g | 0 <= g < MAX_TAGS ensures RootBitOk(t', K, g) { assert RootBitOk(t, K, g); }
  }

  lemma DropRootTags<Id>(t: Tree<Id>, M: Content<Id>, K: Marks, rootTags: set<nat>)
    requires TreeOk(t, M, K) && t.head.Internal? && t.nodes[t.head.node].count == 0
    requires rootTags == if t.idr then t.rootTags else {}
    ensures M == map[] && t.nodes.Keys == {t.head.node}
    ensures TreeOk(DropRoot(t, rootTags), M, K)
  {
    DropRootBase(t, M, rootTags);
    var t' := DropRoot(t, rootTags);
    forall g | 0 <= g < MAX_TAGS ensures RootBitOk(t', K, g) {
      assert RootBitOk(t, K, g) && RecOk(t.nodes[t.head.node]);
      EmptyNodeTags(t, M, K, t.head.node, g);
    }
  }

  lemma LowerTags<Id>(t: Tree<Id>, M: Content<Id>, K: Marks, rootTags: set<nat>)
    requires TreeOk(t, M, K) && t.head.Internal? && RecOk(t.nodes[t.head.node])
    requires t.nodes[t.head.node].count == 1 && t.nodes[t.head.node].slots[0] != Null
    requires t.idr ==> t.nodes[t.head.node].shift > 0
    requires rootTags == if t.idr && 0 !in t.nodes[t.head.node].tags[FREE] then t.rootTags - {FREE} else t.rootTags
    ensures LowerPre(t, M)
    ensures var e := t.nodes[t.head.node].slots[0]; e.Internal? ==> e.node in t.nodes
    ensures TreeOk(Lower(t, rootTags), M, K)
  {
    LowerBase(t, M, rootTags);
    var t', n := Lower(t, rootTags), t.head.node;
    assert SlotOk(t.nodes, n, 0);
    forall m, j, g | m in t'.nodes && 0 <= j < 64 && 0 <= g < MAX_TAGS ensures BitOk(t', K, g, m, j) {
      assert RecOk(t.nodes[m]) && SlotOk(t.nodes, m, j) && BitOk(t, K, g, m, j);
    }
    forall g | 0 <= g < MAX_TAGS ensures RootBitOk(t', K, g) {
      assert RootBitOk(t, K, g) && BitOk(t, K, g, n, 0);
      var r := t.nodes[n];
      if r.shift == 0 {
        assert 0 in r.tags[g] <==> 64 * 0 + 0 in K[g];
      } else {
        assert RecOk(t.nodes[r.slots[0].node]);
        assert 0 in r.tags[g] <==> t'.nodes[t'.head.node].tags[g] != {};
      }
      if t.idr && g == FREE {
        assert BitOk(t, K, g, n, 1);
        assert 1 in r.tags[g];
      } else {
        assert r.tags[g] != {} <==> 0 in r.tags[g] by { OnlyZeroTag(t, M, K, g); }
      }
    }
  }

  lemma OnlyZeroTag<Id>(t: Tree<Id>, M: Content<Id>, K: Marks, g: nat)
    requires TreeOk(t, M, K) && LowerPre(t, M) && g < MAX_TAGS && !(t.idr && g == FREE)
    ensures forall i :: i in t.nodes[t.head.node].tags[g] ==> i == 0
  {
    var n := t.head.node;
    var r := t.nodes[n];
    forall i | i in r.tags[g] ensures i == 0 {
      assert BitOk(t, K, g, n, i);
      if r.shift == 0 { assert LeafOk(r, M, i); }
    }
  }

  // ---------------------------------------------------------------- a tree without nodes

  lemma StoreHeadTags<Id>(t: Tree<Id>, M: Content<Id>, K: Marks, e: Entry<Id>)
    requires TreeOk(t, M, K) && t.head == Null && !t.idr && e.Data()
    ensures TreeOk(t.(head := e), M[0 := e], K) && t.rootTags * {0, 1, 2} == {}
  {
    forall g | 0 <= g < MAX_TAGS ensures RootBitOk(t.(head := e), K, g) && g !in t.rootTags {
      assert RootBitOk(t, K, g) && M == map[] && (0 in K[g] ==> 0 in M);
    }
  }

  lemma EraseHeadTags<Id>(t: Tree<Id>, M: Content<Id>, K: Marks)
    requires BaseOk(t, M) && TagsOk(t, K) && t.head.Data() && |K| == MAX_TAGS
    requires forall g :: 0 <= g < MAX_TAGS ==> K[g] == iset{}
    ensures TreeOk(t.(head := Null), map[], K)
  {
    forall g | 0 <= g < MAX_TAGS ensures RootBitOk(t.(head := Null), K, g) { assert RootBitOk(t, K, g); }
  }

  /** Tags do not matter to the base invariant. */
  lemma RootTagsBase<Id>(t: Tree<Id>, M: Content<Id>, rootTags: set<nat>)
    requires BaseOk(t, M)
    ensures BaseOk(t.(rootTags := rootTags), M)
  {
    var t' := t.(rootTags := rootTags);
    forall m, j | m in t'.nodes && 0 <= j < 64 ensures SlotOk(t'.nodes, m, j) { assert SlotOk(t.nodes, m, j); }
    forall m | m in t'.nodes ensures ParentOk(t', m) && RecOk(t'.nodes[m]) {
      assert ParentOk(t, m) && RecOk(t.nodes[m]);
    }
    forall m, j | m in t'.nodes && t'.nodes[m].shift == 0 && 0 <= j < 64 ensures LeafOk(t'.nodes[m], M, j) {
      assert LeafOk(t.nodes[m], M, j);
    }
    forall m, k | m in t'.nodes && k in M ensures LeadsTo(t'.nodes[m], k) { assert LeadsTo(t.nodes[m], k); }
    forall m | m in t'.nodes ensures CountOk(t'.nodes[m], M) { assert CountOk(t.nodes[m], M); }
  }

  lemma RootTagsBits<Id>(t: Tree<Id>, K: Marks, skip: Option<Bit<Id>>, rootTags: set<nat>)
    requires BitsOk(t, K, skip)
    ensures BitsOk(t.(rootTags := rootTags), K, skip)
  {
    var t' := t.(rootTags := rootTags);
    forall m, i, g | m in t'.nodes && 0 <= i < 64 && 0 <= g < MAX_TAGS && skip != Some(Bit(g, m, i))
      ensures BitOk(t', K, g, m, i) { assert BitOk(t, K, g, m, i); }
  }

  // ---------------------------------------------------------------- climbing with one bit

  ghost predicate SameButTags<Id>(t: Tree<Id>, t': Tree<Id>) {
    && t'.head == t.head && t'.idr == t.idr && t'.nodes.Keys == t.nodes.Keys
    && forall n {:trigger t'.nodes[n]} :: n in t'.nodes ==> t'.nodes[n].(tags := []) == t.nodes[n].(tags := [])
  }

  /** One round of node_tag_clear: bit b, which should be clear and is set, has just been cleared. */
  lemma ClearStep<Id>(t: Tree<Id>, M: Content<Id>, K: Marks, b: Bit<Id>)
    requires BaseOk(t, M) && b.node in t.nodes && b.tag < MAX_TAGS && b.slot < 64 && RecOk(t.nodes[b.node])
    requires BitsOk(t, K, Some(b)) && RootBitsOk(t, K, None) && !Want(t, K, b.tag, b.node, b.slot) &&
      b.slot in t.nodes[b.node].tags[b.tag]
    ensures var t', r := ClearBit(t, b), t.nodes[b.node];
      && BaseOk(t', M) && SameButTags(t, t')
      && (t'.nodes[b.node].tags[b.tag] != {} ==> TagsOk(t', K))
      && (t'.nodes[b.node].tags[b.tag] == {} && r.parent.None? ==>
            BitsOk(t', K, None) && RootBitsOk(t', K, Some(b.tag)) && t'.head == Internal(b.node))
      && (t'.nodes[b.node].tags[b.tag] == {} && r.parent.Some? ==>
            && r.parent.value in t'.nodes && RecOk(t'.nodes[r.parent.value]) &&
              t'.nodes[r.parent.value].shift == r.shift + 6
            && BitsOk(t', K, Some(Bit(b.tag, r.parent.value, r.offset))) && RootBitsOk(t', K, None)
            && !Want(t', K, b.tag, r.parent.value, r.offset))
  {
    var t', r := ClearBit(t, b), t.nodes[b.node];
    RetagBase(t, M, b.node, t'.nodes[b.node].tags);
    ClearBitUp(t, K, b);
    assert ParentOk(t, b.node);
    forall g | 0 <= g < MAX_TAGS && !(t'.nodes[b.node].tags[b.tag] == {} && r.parent.None? && g == b.tag)
      ensures RootBitOk(t', K, g)
    {
      assert RootBitOk(t, K, g);
    }
    if r.parent.Some? { ParentFacts(t, b.node, r.parent.value); }
  }

  /** One round of node_tag_set: bit b, which should be set and is clear, has just been set. */
  lemma SetStep<Id>(t: Tree<Id>, M: Content<Id>, K: Marks, b: Bit<Id>)
    requires BaseOk(t, M) && b.node in t.nodes && b.tag < MAX_TAGS && b.slot < 64 && RecOk(t.nodes[b.node])
    requires BitsOk(t, K, Some(b)) && RootBitsOk(t, K, None) && Want(t, K, b.tag, b.node, b.slot)
    ensures var t', r := SetBit(t, b), t.nodes[b.node];
      && BaseOk(t', M) && SameButTags(t, t') && t'.nodes[b.node].tags[b.tag] != {}
      && (r.parent.None? ==> BitsOk(t', K, None) && RootBitsOk(t', K, Some(b.tag)) && t'.head == Internal(b.node))
      && (r.parent.Some? ==>
            && r.parent.value in t'.nodes && RecOk(t'.nodes[r.parent.value]) &&
              t'.nodes[r.parent.value].shift == r.shift + 6
            && BitsOk(t', K, Some(Bit(b.tag, r.parent.value, r.offset))) && RootBitsOk(t', K, None)
            && Want(t', K, b.tag, r.parent.value, r.offset))
  {
    var t', r := SetBit(t, b), t.nodes[b.node];
    RetagBase(t, M, b.node, t'.nodes[b.node].tags);
    SetBitUp(t, K, b);
    assert ParentOk(t, b.node);
    assert b.slot in t'.nodes[b.node].tags[b.tag];
    forall g | 0 <= g < MAX_TAGS && !(r.parent.None? && g == b.tag) ensures RootBitOk(t', K, g) {
      assert RootBitOk(t, K, g);
    }
    if r.parent.Some? { ParentFacts(t, b.node, r.parent.value); }
  }

  lemma EraseTags<Id>(t: Tree<Id>, M: Content<Id>, K: Marks, n: Id, i: nat, k: nat)
    requires BaseOk(t, M) && TagsOk(t, K) && ErasePre(t, M, n, i, k) && MarksOk(t.idr, M - {k}, K)
    ensures TreeOk(Erase(t, n, i), M - {k}, K)
  {
    EraseBase(t, M, n, i, k);
    SlotStoreBits(t, K, n, Erase(t, n, i).nodes[n], None);
    forall g | 0 <= g < MAX_TAGS ensures RootBitOk(Erase(t, n, i), K, g) { assert RootBitOk(t, K, g); }
  }
}
