/** The sequential tree: nodes and root are objects updated in place. The ghost field `t` of a root
    is the value of its live nodes; each group of stores is tied to a step of TreeSteps. */
module RadixTree {
  import opened Errno
  import opened Words
  import opened TreeHeap
  import opened TreeSteps
  import opened TreeTags
  import opened Canonical

  /** RADIX_TREE_PRELOAD_SIZE: RADIX_TREE_MAX_PATH * 2 - 1, with 11 levels of 6 bits. */
  const PRELOAD_SIZE: nat := 21

  type Index = k: nat | k < WORD

  class Node {
    /** The 64 slots lie inside the node, so they are a value of the node. */
    var slots: seq<Entry<Node>>
    var count: int
    var nrValues: int
    /** Position: written when the node is allocated and never again. */
    const shift: nat
    const offset: nat
    /** An index the node was allocated for, and the bits of it above the node. */
    ghost const home: Index
    ghost const prefix: nat := Shr(home, shift + 6)
    var parent: Node?
    /** For each tag, the slots whose bit is set. */
    var tags: seq<set<nat>>

    constructor (parent: Node?, shift: nat, offset: nat, count: int, nrValues: int, ghost home: Index)
      ensures View() == AllocRec(parent, shift, offset, count, nrValues, Shr(home, shift + 6))
    {
      slots, tags := NoSlots(), NoTags();
      this.parent, this.shift, this.offset := parent, shift, offset;
      this.count, this.nrValues, this.home := count, nrValues, home;
    }

    ghost function View(): Rec<Node>
      reads this
    {
      Rec(slots, count, nrValues, shift, offset, Up(parent), tags, prefix)
    }
  }

  ghost function Up(parent: Node?): Option<Node> { if parent == null then None else Some(parent) }

  /** (node, offset) is the slot of `index`; a null node stands for the slot in the root itself. */
  ghost predicate SlotFor(t: Tree<Node>, node: Node?, offset: nat, index: nat) {
    if node == null then index == 0 && !t.head.Internal? && offset == 0
    else node in t.nodes && t.nodes[node].shift == 0 && Covers(t.nodes[node], index) && offset == Digit(index, 0)
  }

  /** Some leaf has a slot for the index. */
  ghost predicate HasLeaf(t: Tree<Node>, index: nat) {
    exists n {:trigger t.nodes[n]} :: n in t.nodes && t.nodes[n].shift == 0 && Covers(t.nodes[n], index)
  }

  /** The slot of the index exists: no node is missing on the way to it. */
  ghost predicate HasSlot(t: Tree<Node>, index: nat) { HasLeaf(t, index) || (index == 0 && !t.head.Internal?) }

  /** The descent towards `index` stands before slot `offset` of `node`, or before the head, and
      has loaded `child` from it; `above` is the shift of that slot. */
  ghost predicate AtSlot(t: Tree<Node>, node: Node?, above: nat, offset: nat, child: Entry<Node>, index: nat) {
    if node == null then
      && child == t.head && offset == 0 && Shr(index, above) == 0
      && (if child == Null then above == 0 || (t.idr && above == 6) || (above >= 6 && Shr(index, above - 6) > 0)
          else above == HeadShift(t))
    else
      && node in t.nodes && RecOk(t.nodes[node]) && t.nodes[node].shift == above && Covers(t.nodes[node], index)
      && offset == Digit(index, above) && child == t.nodes[node].slots[offset]
  }

  ghost function AllocRec(parent: Node?, shift: nat, offset: nat, count: int, nrValues: int, prefix: nat): Rec<Node> {
    Rec(NoSlots(), count, nrValues, shift, offset, Up(parent), NoTags(), prefix)
  }

  /** What a pool holds, how many nodes have been given out, and how many allocations have failed. */
  datatype Books = Books(nr: nat, made: nat, failures: nat)

  /** The per-CPU pool of preloaded nodes. */
  class Preload {
    var nr: nat
    /** How many allocations have failed. */
    ghost var failures: nat
    /** How many nodes have been given out. */
    ghost var made: nat

    ghost function Account(): Books
      reads this
    {
      Books(nr, made, failures)
    }

    constructor ()
      ensures nr == 0 && failures == 0 && made == 0
    {
      nr, failures, made := 0, 0, 0;
    }

    /** __radix_tree_preload: nodes from the cache, which may fail, until there are `n` in the pool. */
    method Fill(n: nat) returns (err: int)
      modifies this
      ensures err == 0 || err == -ENOMEM
      ensures old(nr) <= nr && nr <= if old(nr) < n then n else old(nr)
      ensures err == 0 <==> nr >= n
      ensures failures == old(failures) + (if err == 0 then 0 else 1) && made == old(made)
    {
      while nr < n
        invariant old(nr) <= nr && nr <= (if old(nr) < n then n else old(nr)) && failures == old(failures)
        invariant made == old(made)
      {
        if * {
          failures := failures + 1;
          return -ENOMEM;
        }
        nr := nr + 1;
      }
      err := 0;
    }

    /** radix_tree_node_alloc when blocking is not allowed: the node cache may fail, the pool
        cannot unless it is empty. */
    method Alloc(parent: Node?, shift: nat, offset: nat, count: int, nrValues: int, ghost home: Index)
      returns (n: Node?)
      modifies this
      ensures n == null ==> old(nr) == 0 && nr == 0
      ensures failures == old(failures) + if n == null then 1 else 0
      ensures made == old(made) + if n == null then 0 else 1
      ensures n != null ==> fresh(n) && old(nr) - 1 <= nr <= old(nr)
      ensures n != null ==> n.View() == AllocRec(parent, shift, offset, count, nrValues, Shr(home, shift + 6))
    {
      n := null;
      if * {
        n := new Node(parent, shift, offset, count, nrValues, home);
        made := made + 1;
      } else if nr > 0 {
        n := new Node(parent, shift, offset, count, nrValues, home);
        nr, made := nr - 1, made + 1;
      } else {
        failures := failures + 1;
      }
    }
  }

  /** The pool has given no more nodes than were given out, and one more allocation failed exactly if `failed`. */
  ghost predicate Charged(b0: Books, b: Books, failed: bool) {
    && b0.made <= b.made && b.nr <= b0.nr <= b.nr + (b.made - b0.made)
    && b.failures == b0.failures + if failed then 1 else 0
  }

  /** A lookup that set its slot: where it stopped and what it loaded there. */
  ghost predicate Loaded(t: Tree<Node>, node: Node?, offset: nat, entry: Entry<Node>, index: nat) {
    if node == null then entry == t.head && !t.head.Internal? && index == 0 && offset == 0
    else
      && node in t.nodes && RecOk(t.nodes[node]) && Covers(t.nodes[node], index)
      && offset == Digit(index, t.nodes[node].shift) && entry == t.nodes[node].slots[offset]
      && (t.nodes[node].shift > 0 ==> entry == Null)
  }

  lemma LoadedIs(t: Tree<Node>, M: Content<Node>, node: Node, offset: nat, index: nat)
    requires BaseOk(t, M) && node in t.nodes && RecOk(t.nodes[node]) && Covers(t.nodes[node], index)
    requires offset == Digit(index, t.nodes[node].shift)
    requires t.nodes[node].shift > 0 ==> t.nodes[node].slots[offset] == Null
    ensures t.nodes[node].slots[offset] == if index in M then M[index] else Null
  {
    var r := t.nodes[node];
    if r.shift == 0 {
      LeafKey(r, index);
      assert LeafOk(r, M, offset);
    } else if index in M {
      LeadsOn(t, M, node, index);
    }
  }

  lemma SlotHolds(t: Tree<Node>, M: Content<Node>, node: Node?, offset: nat, index: nat)
    requires BaseOk(t, M) && SlotFor(t, node, offset, index)
    requires (if node == null then t.head else if RecOk(t.nodes[node]) then t.nodes[node].slots[offset]
      else Null) != Null
    ensures index in M
  {
    if node != null {
      LeafKey(t.nodes[node], index);
      assert LeafOk(t.nodes[node], M, offset);
    }
  }

  lemma AbsentSlot(t: Tree<Node>, M: Content<Node>, node: Node?, offset: nat, index: nat)
    requires BaseOk(t, M) && !t.idr && SlotFor(t, node, offset, index) && (node != null ==> RecOk(t.nodes[node]))
    requires (if node == null then t.head else t.nodes[node].slots[offset]) == Null
    ensures index !in M
  {
    if node != null {
      LeafKey(t.nodes[node], index);
      assert LeafOk(t.nodes[node], M, offset);
    }
  }

  /** A climb stands before bit b; every other bit is right, and so are the root tags. */
  ghost predicate Climbing(t: Tree<Node>, K: Marks, b: Bit<Node>) {
    && b.node in t.nodes && RecOk(t.nodes[b.node]) && b.tag < MAX_TAGS && b.slot < 64
    && BitsOk(t, K, Some(b)) && RootBitsOk(t, K, None)
  }

  ghost predicate RootClear(t: Tree<Node>, K: Marks, g: nat)
    requires g < |K|
  {
    if t.head.Internal? then
      t.head.node in t.nodes && g < |t.nodes[t.head.node].tags| && t.nodes[t.head.node].tags[g] == {}
    else t.head.Data() && 0 !in K[g]
  }

  ghost predicate RootWanted(t: Tree<Node>, K: Marks, g: nat)
    requires g < |K|
  {
    RootHasBit(t, g) || (t.head.Data() && 0 in K[g])
  }

  /** What is left of a climb: bit (node, offset), or the root tag, should become `want`. */
  ghost predicate BitTodo(t: Tree<Node>, K: Marks, g: nat, node: Node?, offset: nat, want: bool) {
    && |K| == MAX_TAGS && g < MAX_TAGS
    && (node != null ==> Climbing(t, K, Bit(g, node, offset)) && (Want(t, K, g, node, offset) <==> want))
    && (node == null ==>
      BitsOk(t, K, None) && RootBitsOk(t, K, Some(g)) && if want then RootWanted(t, K, g) else RootClear(t, K, g))
  }

  lemma RootTagFixed(t: Tree<Node>, K: Marks, g: nat, rootTags: set<nat>)
    requires RootBitsOk(t, K, Some(g)) && g < MAX_TAGS
    requires if g in rootTags then RootWanted(t, K, g) else RootClear(t, K, g)
    requires forall g' :: g' != g ==> (g' in rootTags <==> g' in t.rootTags)
    ensures RootBitsOk(t.(rootTags := rootTags), K, None)
  {
    forall g' | 0 <= g' < MAX_TAGS ensures RootBitOk(t.(rootTags := rootTags), K, g') {
      if g' != g { assert RootBitOk(t, K, g'); }
    }
  }

  /** Marking or unmarking k puts one bit in question: its leaf slot's, or the root tag. */
  lemma UnmarkStart(t: Tree<Node>, K: Marks, K': Marks, node: Node?, tag: nat, offset: nat, k: nat)
    requires Shape(t) && TagsOk(t, K) && tag < MAX_TAGS && SlotFor(t, node, offset, k)
    requires node == null ==> t.head.Data()
    requires |K'| == MAX_TAGS && forall g', k' :: 0 <= g' < MAX_TAGS && (g' != tag || k' != k) ==>
      (k' in K'[g'] <==> k' in K[g'])
    ensures node != null ==>
      Climbing(t, K', Bit(tag, node, offset)) && (Want(t, K', tag, node, offset) <==> k in K'[tag])
    ensures node == null ==> BitsOk(t, K', None) && RootBitsOk(t, K', Some(tag))
  {
    forall g | 0 <= g < MAX_TAGS && !(node == null && g == tag) ensures RootBitOk(t, K', g) {
      assert RootBitOk(t, K, g);
      if node != null { RootTop(t, node); }
    }
    if node != null {
      assert RecOk(t.nodes[node]);
      Remark(t, K, K', tag, node, k);
      LeafKey(t.nodes[node], k);
    }
  }

  lemma CountPositive(t: Tree<Node>, M: Content<Node>, n: Node)
    requires BaseOk(t, M) && n in t.nodes && t.nodes[n].count != 0
    ensures t.nodes[n].count > 0 && (Busy(t, Some(n)) ==> Busy(t, None))
  {
    assert CountOk(t.nodes[n], M);
  }

  lemma SlotForStays(t: Tree<Node>, t': Tree<Node>, node: Node?, offset: nat, k: nat)
    requires SameButTags(t, t') && SlotFor(t, node, offset, k)
    ensures SlotFor(t', node, offset, k)
  {
    if node != null { assert t'.nodes[node].(tags := []) == t.nodes[node].(tags := []); }
  }

  /** Where an IDR lookup ends, the IDR_FREE bit says whether the index is absent. */
  lemma FreeBitMeans(t: Tree<Node>, M: Content<Node>, K: Marks, node: Node?, offset: nat, index: nat)
    requires TreeOk(t, M, K)
    requires Loaded(t, node, offset, if index in M then M[index] else Null, index)
    ensures node != null ==> RecOk(t.nodes[node])
    ensures t.idr && index !in M ==> if node == null then FREE in t.rootTags else offset in t.nodes[node].tags[FREE]
    ensures t.idr && index in M && node != null ==> offset !in t.nodes[node].tags[FREE]
    ensures index in M ==> SlotFor(t, node, offset, index)
  {
    if node == null {
      assert RootBitOk(t, K, FREE);
    } else {
      assert BitOk(t, K, FREE, node, offset);
      if t.nodes[node].shift == 0 {
        LeafKey(t.nodes[node], index);
      } else if index in M {
        LeadsOn(t, M, node, index);
      }
    }
  }

  lemma EraseAll(t: Tree<Node>, M: Content<Node>, K: Marks, node: Node, offset: nat, k: nat)
    requires BaseOk(t, M) && TagsOk(t, K) && MarksOk(t.idr, M - {k}, K) && k in M && SlotFor(t, node, offset, k)
    ensures |t.nodes[node].slots| == 64 && offset < 64
    ensures TreeOk(Erase(t, node, offset), M - {k}, K)
    ensures Minimal(t) ==> MinimalBut(Erase(t, node, offset), node)
  {
    assert RecOk(t.nodes[node]);
    LeafKey(t.nodes[node], k);
    EraseTags(t, M, K, node, offset, k);
    if Minimal(t) { EraseMinimal(t, node, offset); }
  }

  ghost predicate RootHasBit(t: Tree<Node>, g: nat) {
    t.head.Internal? && t.head.node in t.nodes && g < |t.nodes[t.head.node].tags| && t.nodes[t.head.node].tags[g] != {}
  }

  /** radix_tree_tag_set on its way down: bits are right except the last one set, and the root tag. */
  ghost predicate TagDescent(t: Tree<Node>, M: Content<Node>, K: Marks, g: nat, node: Node?, offset: nat,
          entry: Entry<Node>, index: nat)
  {
    && BaseOk(t, M) && g < MAX_TAGS && |K| == MAX_TAGS && RootBitsOk(t, K, Some(g)) && offset < 64
    && (if node == null then BitsOk(t, K, None) && entry == t.head && Shr(index, HeadShift(t)) == 0
        else
          && node in t.nodes && RecOk(t.nodes[node]) && Covers(t.nodes[node], index) &&
            offset == Digit(index, t.nodes[node].shift)
          && entry == t.nodes[node].slots[offset] && offset in t.nodes[node].tags[g]
          && RootHasBit(t, g) && BitsOk(t, K, Some(Bit(g, node, offset))))
  }

  lemma TagDescentDown(t: Tree<Node>, M: Content<Node>, K: Marks, g: nat, node: Node?, offset: nat, n: Node, index: nat)
    requires TagDescent(t, M, K, g, node, offset, Internal(n), index) && index in M
    ensures n in t.nodes && RecOk(t.nodes[n])
    ensures var o := Digit(index, t.nodes[n].shift);
      && TagDescent(SetBit(t, Bit(g, n, o)), M, K, g, n, o, t.nodes[n].slots[o], index)
      && SameButTags(t, SetBit(t, Bit(g, n, o)))
    ensures t.nodes[n].shift < if node == null then HeadShift(t) else t.nodes[node].shift
  {
    if node != null { ChildCovers(t, node, index); assert SlotOk(t.nodes, node, offset); }
    var r := t.nodes[n];
    assert RecOk(r);
    var o := Digit(index, r.shift);
    var t' := SetBit(t, Bit(g, n, o));
    RetagBase(t, M, n, t'.nodes[n].tags);
    if node == null {
      SetBitDown(t, K, None, Bit(g, n, o));
    } else {
      var above: Bit<Node> := Bit(g, node, offset);
      SetBitDown(t, K, Some(above), Bit(g, n, o));
    }
    assert o in t'.nodes[n].tags[g];
    RootTop(t, n);
    forall g' | 0 <= g' < MAX_TAGS && g' != g ensures RootBitOk(t', K, g') { assert RootBitOk(t, K, g'); }
    assert RecOk(t.nodes[t.head.node]);
  }

  lemma TagDescentEnd(t: Tree<Node>, M: Content<Node>, K: Marks, K': Marks, g: nat, node: Node?, offset: nat,
          entry: Entry<Node>, index: nat)
    requires TagDescent(t, M, K, g, node, offset, entry, index) && !entry.Internal? && index in M && !t.idr
    requires K' == K[g := K[g] + iset{index}]
    requires MarksOk(t.idr, M, K)
    ensures entry == M[index] && BitTodo(t, K', g, null, 0, true) && MarksOk(t.idr, M, K')
  {
    if node != null {
      var r := t.nodes[node];
      assert SlotOk(t.nodes, node, offset) && LeadsTo(r, index);
      LeafKey(r, index);
      assert LeafOk(r, M, offset);
      RemarkSet(t, K, K', g, node, index);
    }
    forall g' | 0 <= g' < MAX_TAGS && g' != g ensures RootBitOk(t, K', g') { assert RootBitOk(t, K, g'); }
  }

  /** With its bit already set, a marked leaf slot is right. */
  lemma RemarkSet(t: Tree<Node>, K: Marks, K': Marks, g: nat, n: Node, k: nat)
    requires Shape(t) && BitsOk(t, K, Some(Bit(g, n, Digit(k, 0)))) && n in t.nodes && RecOk(t.nodes[n]) &&
      t.nodes[n].shift == 0
    requires Covers(t.nodes[n], k) && g < MAX_TAGS && Digit(k, 0) in t.nodes[n].tags[g]
    requires K' == K[g := K[g] + iset{k}]
    ensures BitsOk(t, K', None)
  {
    LeafKey(t.nodes[n], k);
    forall m, i, g' | m in t.nodes && 0 <= i < 64 && 0 <= g' < MAX_TAGS ensures BitOk(t, K', g', m, i) {
      if Bit(g', m, i) != Bit(g, n, Digit(k, 0)) {
        assert BitOk(t, K, g', m, i);
        if t.nodes[m].shift == 0 && t.nodes[m].prefix == t.nodes[n].prefix { Unique(t, m, n); }
      }
    }
  }

  /** radix_tree_tag_get on its way down: every bit read so far is set. */
  ghost predicate BitDescent(t: Tree<Node>, g: nat, node: Node?, offset: nat, entry: Entry<Node>, index: nat) {
    && g < MAX_TAGS && g in t.rootTags
    && (if node == null then entry == t.head && Shr(index, HeadShift(t)) == 0
        else
          && node in t.nodes && RecOk(t.nodes[node]) && Covers(t.nodes[node], index) &&
            offset == Digit(index, t.nodes[node].shift)
          && entry == t.nodes[node].slots[offset] && offset in t.nodes[node].tags[g])
  }

  lemma ClearMeansUnmarked(t: Tree<Node>, M: Content<Node>, K: Marks, n: Node, g: nat, index: nat)
    requires TreeOk(t, M, K) && n in t.nodes && RecOk(t.nodes[n]) && Covers(t.nodes[n], index) && g < MAX_TAGS
    requires Digit(index, t.nodes[n].shift) !in t.nodes[n].tags[g]
    ensures index !in K[g]
  {
    var r := t.nodes[n];
    BitMeaning(t, M, K, n, g, Digit(index, r.shift));
    UnderDown(index, r.shift, r.prefix);
  }

  lemma BitDescentEnd(t: Tree<Node>, M: Content<Node>, K: Marks, g: nat, node: Node?, offset: nat, entry: Entry<Node>,
          index: nat)
    requires TreeOk(t, M, K) && BitDescent(t, g, node, offset, entry, index) && !entry.Internal? && !t.idr
    ensures index in K[g]
  {
    if node == null {
      assert RootBitOk(t, K, g);
    } else {
      assert BitOk(t, K, g, node, offset) && SlotOk(t.nodes, node, offset);
      LeafKey(t.nodes[node], index);
    }
  }

  lemma AddBelowStep(t: Tree<Node>, M: Content<Node>, K: Marks, p: Node, i: nat, n: Node, index: nat)
    requires TreeOk(t, M, K) && p in t.nodes && n !in t.nodes && RecOk(t.nodes[p]) && t.nodes[p].shift >= 6
    requires Covers(t.nodes[p], index) && i == Digit(index, t.nodes[p].shift) && t.nodes[p].slots[i] == Null
    ensures var t' := AddChild(t, p, i, n);
      && TreeOk(t', M, K) && t'.nodes.Keys == t.nodes.Keys + {n}
      && RecOk(t'.nodes[n]) && t'.nodes[n].shift + 6 == t.nodes[p].shift && Covers(t'.nodes[n], index)
      && (Busy(t, Some(p)) && HighRoot(t, index) ==> Busy(t', Some(n)) && HighRoot(t', index))
  {
    AddChildTags(t, M, K, p, i, n);
    var t' := AddChild(t, p, i, n);
    assert RecOk(t'.nodes[n]);
    ChildRange(t.nodes[p], t'.nodes[n], i, index);
    if Busy(t, Some(p)) && HighRoot(t, index) {
      AddChildHigh(t, p, i, n, index);
      AddChildBusy(t, M, p, i, n);
    }
  }

  /** The maximum index radix_tree_load_root reports bounds exactly the indices the tree covers. */
  lemma MaxIndexIs(t: Tree<Node>, k: nat)
    requires Shape(t) && k < WORD
    ensures k <= (if t.head.Internal? then ShiftMaxIndex(HeadShift(t) - 6) else 0) <==> Shr(k, HeadShift(t)) == 0
  {
    if t.head.Internal? {
      assert RecOk(t.nodes[t.head.node]);
      MaxIndexIsCover(k, HeadShift(t) - 6);
    }
  }

  lemma LeadsOn(t: Tree<Node>, M: Content<Node>, n: Node, k: nat)
    requires BaseOk(t, M) && n in t.nodes && k in M && t.nodes[n].shift > 0 && Covers(t.nodes[n], k)
    ensures RecOk(t.nodes[n]) && t.nodes[n].slots[Digit(k, t.nodes[n].shift)] != Null
  {
    assert LeadsTo(t.nodes[n], k);
  }

  lemma LeafInRange(t: Tree<Node>, k: nat)
    requires Shape(t) && HasSlot(t, k)
    ensures Shr(k, HeadShift(t)) == 0
  {
    if n :| n in t.nodes && t.nodes[n].shift == 0 && Covers(t.nodes[n], k) { RootCovers(t, n, k); }
  }

  /** Where a slot on the way down is empty, there is no leaf. */
  lemma NoLeafBelow(t: Tree<Node>, node: Node?, above: nat, offset: nat, index: nat)
    requires Shape(t) && above >= 6 && AtSlot(t, node, above, offset, Null, index)
    ensures !HasLeaf(t, index)
  {
    if n :| n in t.nodes && t.nodes[n].shift == 0 && Covers(t.nodes[n], index) {
      RootTop(t, n);
      if node != null { PathInternal(t, n, node, index); }
      assert false;
    }
  }

  lemma NullMeansAbsent(t: Tree<Node>, M: Content<Node>, node: Node?, above: nat, offset: nat, index: nat)
    requires BaseOk(t, M) && above >= 6 && AtSlot(t, node, above, offset, Null, index)
    ensures index !in M
  {
    if index in M && node != null { LeadsOn(t, M, node, index); }
  }

  lemma IdrRootTags(t: Tree<Node>, M: Content<Node>, K: Marks)
    requires TreeOk(t, M, K) && t.idr
    ensures 1 !in t.rootTags && 2 !in t.rootTags
  {
    forall g | g == 1 || g == 2 ensures g !in t.rootTags {
      assert RootBitOk(t, K, g);
      if t.head.Internal? {
        assert RecOk(t.nodes[t.head.node]);
        NodeBits(t, M, K, t.head.node, g);
      }
    }
  }

  lemma NoMarks(M: Content<Node>, marks: iset<nat>)
    requires M == map[] && forall k :: k in marks ==> k in M
    ensures marks == iset{}
  {
  }

  ghost predicate ShrinkTest(r: Rec<Node>, idr: bool) {
    r.count == 1 && |r.slots| > 0 && r.slots[0] != Null && (r.shift != 0 || !idr)
  }

  class Root {
    const idr: bool
    const pool: Preload
    var head: Entry<Node>
    /** The tag bits of xa_flags. */
    var rootTags: set<nat>

    /** The live tree as a value, its contents, and the indices each tag marks. */
    ghost var t: Tree<Node>
    ghost var M: Content<Node>
    ghost var K: Marks
    /** The nodes passed to radix_tree_node_free. */
    ghost var freed: set<Node>

    /** A dereference: the node must not have been freed. */
    function At(node: Node): (n: Node)
      requires node !in freed
      reads this
      ensures n == node
    {
      node
    }

    /** The ghost value agrees with the fields. */
    ghost predicate Linked()
      reads this, t.nodes.Keys
    {
      && t.head == head && t.rootTags == rootTags && t.idr == idr
      && forall n {:trigger n.View()} :: n in t.nodes ==> n.View() == t.nodes[n]
    }

    /** ... and none of its nodes has been freed. */
    ghost predicate Coupled()
      reads this, t.nodes.Keys
    {
      Linked() && forall n {:trigger n in freed} :: n in freed ==> n !in t.nodes
    }

    ghost predicate Ok()
      reads this, t.nodes.Keys
    {
      Coupled() && TreeOk(t, M, K)
    }

    /** The invariant between operations. */
    ghost predicate Valid()
      reads this, t.nodes.Keys
    {
      Ok() && Minimal(t)
    }

    constructor (idr: bool, pool: Preload)
      ensures Valid() && this.idr == idr && this.pool == pool && t.nodes == map[] && M == map[] && freed == {}
      ensures !idr ==> K == [iset{}, iset{}, iset{}]
    {
      this.idr, this.pool, head, rootTags := idr, pool, Null, if idr then {FREE} else {};
      new;
      t, M, freed := Tree(Null, map[], rootTags, idr), map[], {};
      K := [if idr then iset k: nat | k !in M else iset{}, iset{}, iset{}];
      forall g | 0 <= g < MAX_TAGS ensures RootBitOk(t, K, g) { }
    }

    // -------------------------------------------------------------- groups of stores

    /** The tags of a new root, and the root tags beside it. */
    method TagNewRoot(node: Node)
      requires node.tags == NoTags() && (idr ==> 1 !in rootTags && 2 !in rootTags)
      modifies node`tags, this`rootTags
      ensures NewRootTags(idr, old(rootTags), node.tags, rootTags)
    {
      if idr {
        node.tags := [AllSlots(), {}, {}];
        assert forall i: nat :: i in AllSlots() <==> IsSlot(i);
        if FREE !in rootTags {
          node.tags := [AllSlots() - {0}, {}, {}];
          rootTags := rootTags + {FREE};
        }
      } else {
        for tag := 0 to MAX_TAGS
          invariant |node.tags| == MAX_TAGS && rootTags == old(rootTags)
          invariant forall g :: 0 <= g < MAX_TAGS ==> node.tags[g] == if g < tag && g in rootTags then {0} else {}
        {
          if tag in rootTags {
            node.tags := node.tags[tag := node.tags[tag] + {0}];
          }
        }
      }
    }

    /** A new node becomes the root, above the old head. */
    method Crown(node: Node, shift: nat)
      requires Coupled() && node !in t.nodes && node !in freed && (head.Internal? ==> head.node in t.nodes)
      requires node.View() == AllocRec(null, shift, 0, 1, 0, 0) && (idr ==> 1 !in rootTags && 2 !in rootTags)
      modifies this, node, t.nodes.Keys
      ensures NewRootTags(idr, old(rootTags), node.tags, rootTags)
      ensures Coupled() && t == Grow(old(t), node, shift, node.tags, rootTags) && M == old(M) && K == old(K)
    {
      TagNewRoot(node);
      var entry := head;
      if entry.Internal? {
        entry.node.parent := node;
      } else if entry.Value? {
        node.nrValues := 1;
      }
      node.slots := node.slots[0 := entry];
      head := Internal(node);
      t := Grow(t, node, shift, node.tags, rootTags);
      forall n | n in t.nodes ensures n.View() == t.nodes[n] {
        if n != node { assert old(n.View()) == old(t).nodes[n]; }
      }
    }

    /** An empty inner slot receives a new, empty child. */
    method Graft(p: Node, i: nat, n: Node)
      requires Coupled() && p in t.nodes && n !in t.nodes && n !in freed && i < |t.nodes[p].slots| &&
        t.nodes[p].shift >= 6
      requires n.View() == FreshRec(Some(p), t.nodes[p].shift - 6, i, 64 * t.nodes[p].prefix + i, FreshTags(idr))
      modifies this`t, p
      ensures Coupled() && t == AddChild(old(t), p, i, n)
    {
      assert p.View() == t.nodes[p];
      p.slots := p.slots[i := Internal(n)];
      p.count := p.count + 1;
      t := AddChild(t, p, i, n);
      forall m | m in t.nodes ensures m.View() == t.nodes[m] {
        if m != n { assert old(m.View()) == old(t).nodes[m]; }
      }
    }

    /** A new, empty root in an empty tree. */
    method Plant(n: Node, shift: nat)
      requires Coupled() && n !in freed && n.View() == FreshRec(None, shift, 0, 0, FreshTags(idr))
      modifies this`t, this`head
      ensures Coupled() && t == AddRoot(old(t), n, shift)
    {
      head := Internal(n);
      t := AddRoot(t, n, shift);
    }

    method StoreSlot(n: Node, i: nat, e: Entry<Node>)
      requires Coupled() && n in t.nodes && i < |t.nodes[n].slots|
      modifies this`t, n
      ensures Coupled() && t == Store(old(t), n, i, e)
    {
      assert n.View() == t.nodes[n];
      n.slots := n.slots[i := e];
      n.count := n.count + 1;
      if e.Value? {
        n.nrValues := n.nrValues + 1;
      }
      t := Store(t, n, i, e);
      forall m | m in t.nodes ensures m.View() == t.nodes[m] { assert old(m.View()) == old(t).nodes[m]; }
    }

    /** replace_slot(slot, NULL, node, -1, values) on a leaf slot. */
    method EraseSlot(n: Node, i: nat)
      requires Coupled() && n in t.nodes && i < |t.nodes[n].slots|
      modifies this`t, n
      ensures Coupled() && t == Erase(old(t), n, i)
    {
      assert n.View() == t.nodes[n];
      var values := if At(n).slots[i].Value? then -1 else 0;
      n.count := At(n).count - 1;
      n.nrValues := At(n).nrValues + values;
      n.slots := At(n).slots[i := Null];
      t := Erase(t, n, i);
      forall m | m in t.nodes ensures m.View() == t.nodes[m] { assert old(m.View()) == old(t).nodes[m]; }
    }

    /** An empty node leaves its parent's slot. */
    method Detach(n: Node)
      requires Coupled() && n in t.nodes && n.parent != null && n.parent in t.nodes && n.parent != n
      requires n.offset < |n.parent.slots|
      modifies this`t, n.parent
      ensures t.nodes.Keys == old(t.nodes.Keys) - {n}
      ensures old(t).nodes[n].parent == Some(old(n.parent)) &&
        old(t).nodes[n].offset < |old(t).nodes[old(n.parent)].slots|
      ensures Coupled() && t == Unlink(old(t), n)
    {
      var p := At(n).parent;
      assert n.View() == t.nodes[n] && p.View() == t.nodes[p];
      p.slots := At(p).slots[At(n).offset := Null];
      p.count := At(p).count - 1;
      t := Unlink(t, n);
      forall m | m in t.nodes ensures m.View() == t.nodes[m] { assert old(m.View()) == old(t).nodes[m]; }
    }

    /** The root's child in slot 0 becomes the head; the old root is left for its readers, with a
        RETRY marker when its child was an item. */
    method LowerHead()
      requires Coupled() && head.Internal? && head.node in t.nodes && |head.node.slots| == 64 &&
        |head.node.tags| == MAX_TAGS
      requires head.node.slots[0].Internal? ==>
        head.node.slots[0].node in t.nodes && head.node.slots[0].node != head.node
      modifies this, t.nodes.Keys
      ensures freed == old(freed) + {old(head).node}
      ensures var r := old(t).nodes[old(head).node];
        && |r.slots| == 64 && |r.tags| == MAX_TAGS && (r.slots[0].Internal? ==> r.slots[0].node in old(t).nodes)
        && Coupled() && M == old(M) && K == old(K)
        && t == Lower(old(t), if idr && 0 !in r.tags[FREE] then old(rootTags) - {FREE} else old(rootTags))
    {
      var node := head.node;
      assert node.View() == t.nodes[node];
      var child := At(node).slots[0];
      if child.Internal? {
        At(child.node).parent := null;
      }
      head := child;
      if idr && 0 !in At(node).tags[FREE] {
        rootTags := rootTags - {FREE};
      }
      t := Lower(t, rootTags);
      node.count := 0;
      if !child.Internal? {
        node.slots := At(node).slots[0 := Retry];
      }
      freed := freed + {node};
      forall m | m in t.nodes ensures m.View() == t.nodes[m] { assert old(m.View()) == old(t).nodes[m]; }
    }

    /** tag_set */
    method TagSetBit(n: Node, tag: nat, i: nat)
      requires Coupled() && n in t.nodes && tag < |n.tags|
      modifies this`t, n
      ensures tag < |old(t).nodes[n].tags| && Coupled() && t == SetBit(old(t), Bit(tag, n, i))
    {
      assert n.View() == t.nodes[n];
      n.tags := n.tags[tag := n.tags[tag] + {i}];
      t := SetBit(t, Bit(tag, n, i));
      forall m | m in t.nodes ensures m.View() == t.nodes[m] { assert old(m.View()) == old(t).nodes[m]; }
    }

    /** tag_clear */
    method TagClearBit(n: Node, tag: nat, i: nat)
      requires Coupled() && n in t.nodes && tag < |n.tags|
      modifies this`t, n
      ensures tag < |old(t).nodes[n].tags| && Coupled() && t == ClearBit(old(t), Bit(tag, n, i))
    {
      assert n.View() == t.nodes[n];
      n.tags := At(n).tags[tag := At(n).tags[tag] - {i}];
      t := ClearBit(t, Bit(tag, n, i));
      forall m | m in t.nodes ensures m.View() == t.nodes[m] { assert old(m.View()) == old(t).nodes[m]; }
    }

    // -------------------------------------------------------------- growing

    method LoadRoot() returns (entry: Entry<Node>, shift: nat, maxindex: nat)
      requires Ok()
      ensures entry == head && shift == HeadShift(t) && shift % 6 == 0 && shift <= 66
      ensures maxindex == if head.Internal? then ShiftMaxIndex(shift - 6) else 0
    {
      entry := head;
      if head.Internal? {
        var node := head.node;
        assert RecOk(t.nodes[node]) && node.View() == t.nodes[node];
        shift, maxindex := node.shift + 6, ShiftMaxIndex(node.shift);
      } else {
        shift, maxindex := 0, 0;
      }
    }

    /** One round of radix_tree_extend. */
    method Raise(shift: nat) returns (ok: bool)
      requires Ok() && head != Null && shift <= 60 && shift == HeadShift(t)
      modifies this, pool, t.nodes.Keys
      ensures Ok() && M == old(M) && K == old(K)
      ensures !ok ==> t == old(t) && old(pool.nr) == 0 && pool.nr == 0
      ensures Charged(old(pool.Account()), pool.Account(), !ok)
      ensures pool.made == old(pool.made) + if ok then 1 else 0
      ensures ok ==> head.Internal? && fresh(head.node) && t.nodes.Keys == old(t.nodes.Keys) + {head.node}
      ensures ok ==> HeadShift(t) == shift + 6 && (old(Busy(t, None)) ==> Busy(t, None))
    {
      assert shift % 6 == 0 by { if head.Internal? { assert RecOk(t.nodes[head.node]); } }
      if idr { IdrRootTags(t, M, K); }
      ShrZeroUp(0, 0, shift + 6);
      var node := pool.Alloc(null, shift, 0, 1, 0, 0);
      if node == null {
        return false;
      }
      ghost var s := t;
      assert node !in t.nodes.Keys && node !in freed;
      Crown(node, shift);
      GrowTags(s, M, K, node, shift, node.tags, rootTags);
      return true;
    }

    /** The least shift, from the given one on, whose root covers `index`. */
    static method CoverShift(index: nat, shift: nat) returns (maxshift: nat)
      requires index < WORD && shift % 6 == 0 && shift <= 60 && Shr(index, shift) > 0
      ensures shift <= maxshift <= 60 && maxshift % 6 == 0
      ensures Shr(index, maxshift + 6) == 0 && Shr(index, maxshift) > 0
    {
      maxshift := shift;
      MaxIndexIsCover(index, maxshift);
      while index > ShiftMaxIndex(maxshift)
        invariant shift <= maxshift <= 60 && maxshift % 6 == 0
        invariant Shr(index, maxshift) > 0
        invariant index <= ShiftMaxIndex(maxshift) <==> Shr(index, maxshift + 6) == 0
        decreases 60 - maxshift
      {
        if maxshift == 60 { Pow60(); }
        maxshift := maxshift + 6;
        MaxIndexIsCover(index, maxshift);
      }
    }

    /** The rounds of radix_tree_extend up to a root at `maxshift`. */
    method RaiseTo(shift0: nat, maxshift: nat) returns (done: bool, ghost raised: nat)
      requires Ok() && head != Null && shift0 == HeadShift(t)
      requires shift0 <= maxshift <= 60 && shift0 % 6 == 0 && maxshift % 6 == 0
      modifies this, pool, t.nodes.Keys
      ensures Ok() && M == old(M) && K == old(K)
      ensures forall n :: n in t.nodes ==> n in old(t).nodes || fresh(n)
      ensures old(Busy(t, None)) ==> Busy(t, None)
      ensures pool.made == old(pool.made) + raised
      ensures done ==> head.Internal? && HeadShift(t) == maxshift + 6 && raised <= 11
      ensures !done ==> pool.nr == 0 && raised <= 10 && HeadShift(t) <= 60
      ensures Charged(old(pool.Account()), pool.Account(), !done)
    {
      raised := 0;
      var shift := shift0;
      while true
        invariant Ok() && M == old(M) && K == old(K) && head != Null
        invariant forall n :: n in t.nodes ==> n in old(t).nodes || fresh(n)
        invariant old(Busy(t, None)) ==> Busy(t, None)
        invariant shift % 6 == 0 && shift0 <= shift <= maxshift && shift == HeadShift(t)
        invariant pool.made == old(pool.made) + raised && shift == shift0 + 6 * raised
        invariant Charged(old(pool.Account()), pool.Account(), false)
        decreases maxshift - shift
      {
        StepUp(shift);
        var ok := Raise(shift);
        if !ok {
          return false, raised;
        }
        if shift + 6 > maxshift { LastStep(shift, maxshift); }
        shift, raised := shift + 6, raised + 1;
        if shift > maxshift { break; }
      }
      return true, raised;
    }

    /** radix_tree_extend: new roots above the old one until `index` is covered. Returns the shift
        above the new root, or 0 where the source returns -ENOMEM. */
    method Extend(index: nat, shift0: nat) returns (newShift: nat, ghost raised: nat)
      requires Ok() && index < WORD && shift0 == HeadShift(t)
      requires shift0 <= 60 && shift0 % 6 == 0 && Shr(index, shift0) > 0
      modifies this, pool, t.nodes.Keys
      ensures Ok() && M == old(M) && K == old(K)
      ensures forall n :: n in t.nodes ==> n in old(t).nodes || fresh(n)
      ensures old(Busy(t, None)) ==> Busy(t, None)
      ensures pool.made == old(pool.made) + raised
      ensures newShift == 0 ==> pool.nr == 0 && raised <= 10 && HeadShift(t) <= 60
      ensures Charged(old(pool.Account()), pool.Account(), newShift == 0)
      ensures newShift != 0 ==> shift0 < newShift <= 66 && newShift % 6 == 0
      ensures newShift != 0 ==> Shr(index, newShift) == 0 && Shr(index, newShift - 6) > 0
      ensures newShift != 0 ==> raised <= 11
      ensures old(head) == Null ==> newShift != 0 && raised == 0 && t == old(t) && pool.nr == old(pool.nr)
      ensures old(head) != Null && newShift != 0 ==> head.Internal? && HeadShift(t) == newShift
    {
      raised := 0;
      var maxshift := CoverShift(index, shift0);
      StepUp(maxshift);
      if head == Null && (!idr || FREE in rootTags) {
        return maxshift + 6, 0;
      }
      assert RootBitOk(t, K, FREE);
      var ok;
      ok, raised := RaiseTo(shift0, maxshift);
      if !ok {
        return 0, raised;
      }
      return maxshift + 6, raised;
    }

    /** __radix_tree_create: the slot of `index`, with the branch down to it. A null node stands for
        the slot in the root itself. */
    method Create(index: nat) returns (err: int, node: Node?, offset: nat)
      requires Ok() && !idr && index < WORD
      modifies this, pool, t.nodes.Keys
      ensures Ok() && M == old(M) && K == old(K)
      ensures forall n :: n in t.nodes ==> n in old(t).nodes || fresh(n)
      ensures err == 0 || err == -ENOMEM
      ensures err == -ENOMEM ==> old(pool.nr) < PRELOAD_SIZE
      ensures Charged(old(pool.Account()), pool.Account(), err != 0)
      ensures pool.made <= old(pool.made) + PRELOAD_SIZE
      ensures HasSlot(old(t), index) ==> err == 0 && t == old(t) && pool.Account() == old(pool.Account())
      ensures err == 0 ==> SlotFor(t, node, offset, index)
      ensures err == 0 && old(Minimal(t)) ==> Busy(t, Up(node)) && HighRoot(t, index)
      ensures index in M ==> err == 0 && t == old(t)
    {
      ghost var neat := Minimal(t);
      var ok, child, shift;
      ghost var raised;
      ok, child, shift, raised := Reach(index);
      if !ok {
        return -ENOMEM, null, 0;
      }
      if index == 0 && shift >= 6 { ShrZeroUp(0, 0, shift - 6); }
      err, node, offset := Descend(index, child, shift, neat);
    }

    /** The first half of __radix_tree_create: make sure the tree is high enough. */
    method Reach(index: nat) returns (ok: bool, child: Entry<Node>, shift: nat, ghost raised: nat)
      requires Ok() && index < WORD
      modifies this, pool, t.nodes.Keys
      ensures Ok() && M == old(M) && K == old(K)
      ensures forall n :: n in t.nodes ==> n in old(t).nodes || fresh(n)
      ensures pool.made == old(pool.made) + raised && raised <= 11
      ensures old(head) == Null ==> ok && t == old(t) && raised == 0
      ensures ok && old(head) != Null ==> head != Null
      ensures !ok ==> pool.nr == 0 && raised <= 10 && index !in M && HeadShift(t) <= 60
      ensures ok ==>
        child == head && shift % 6 == 0 && shift <= 66 && Shr(index, shift) == 0 && (shift == 0 ==> !head.Internal?)
      ensures ok ==>
        if head == Null then shift == 0 || (shift >= 6 && Shr(index, shift - 6) > 0) else shift == HeadShift(t)
      ensures index in M ==> ok && t == old(t)
      ensures HasSlot(old(t), index) ==> ok && t == old(t) && pool.Account() == old(pool.Account())
      ensures Charged(old(pool.Account()), pool.Account(), !ok)
      ensures ok && t != old(t) ==> shift >= 6 && Shr(index, shift - 6) > 0
      ensures ok && old(Minimal(t)) ==> Busy(t, None) && HighRoot(t, index)
    {
      var maxindex;
      raised := 0;
      child, shift, maxindex := LoadRoot();
      MaxIndexIs(t, index);
      if Minimal(t) { MinimalIsHigh(t, M, index); }
      if index <= maxindex {
        return true, child, shift, 0;
      }
      if index in M { InRange(t, M, index); }
      if HasSlot(t, index) { LeafInRange(t, index); }
      TopShift(index, shift);
      shift, raised := Extend(index, shift);
      if shift == 0 {
        return false, Null, 0, raised;
      }
      TopDigit(index, shift - 6);
      return true, head, shift, raised;
    }

    /** The descent of __radix_tree_create, adding the nodes that are missing. */
    method Descend(index: nat, child0: Entry<Node>, shift0: nat, ghost neat: bool)
      returns (err: int, node: Node?, offset: nat)
      requires index < WORD
      requires Ok() && !idr && shift0 % 6 == 0 && shift0 <= 66
      requires AtSlot(t, null, shift0, 0, child0, index) && (shift0 == 0 ==> !head.Internal?)
      requires neat ==> Busy(t, None) && HighRoot(t, index)
      modifies this, pool, t.nodes.Keys
      ensures Ok() && M == old(M) && K == old(K)
      ensures forall n :: n in t.nodes ==> n in old(t).nodes || fresh(n)
      ensures err == 0 || err == -ENOMEM
      ensures err == -ENOMEM ==> pool.nr == 0
      ensures pool.made <= old(pool.made) + (if old(head) == Null then 11 else 10) - if err == 0 then 0 else 1
      ensures err == 0 ==> SlotFor(t, node, offset, index)
      ensures err == 0 && neat ==> Busy(t, Up(node)) && HighRoot(t, index)
      ensures index in M ==> err == 0 && t == old(t)
      ensures Charged(old(pool.Account()), pool.Account(), err != 0)
      ensures HasLeaf(old(t), index) || shift0 == 0 ==>
        err == 0 && t == old(t) && pool.Account() == old(pool.Account())
    {
      var child, shift: nat := child0, shift0;
      node, offset := null, 0;
      ghost var added, top := 0, if head == Null then shift0 else shift0 - 6;
      while shift > 0
        invariant Ok() && M == old(M) && K == old(K)
        invariant forall n :: n in t.nodes ==> n in old(t).nodes || fresh(n)
        invariant shift % 6 == 0 && shift <= shift0 && AtSlot(t, node, shift, offset, child, index)
        invariant if node == null then shift == shift0 && t == old(t) else shift + 6 <= shift0
        invariant neat ==> Busy(t, Up(node)) && HighRoot(t, index)
        invariant index in M ==> t == old(t)
        invariant HasLeaf(old(t), index) || shift == shift0 ==> t == old(t) && pool.Account() == old(pool.Account())
        invariant Charged(old(pool.Account()), pool.Account(), false)
        invariant pool.made == old(pool.made) + added && (added == 0 || shift + 6 * added <= top)
      {
        StepDown(shift);
        shift := shift - 6;
        ghost var missing := child == Null;
        var n := Down(node, child, shift, offset, index, neat);
        if n == null {
          return -ENOMEM, null, 0;
        }
        added := if missing then added + 1 else added;
        node := n;
        assert node.View() == t.nodes[node];
        offset := Digit(index, node.shift);
        child := node.slots[offset];
      }
      return 0, node, offset;
    }

    /** One level of the descent: the child is added if the slot is empty. */
    method Down(node: Node?, child: Entry<Node>, shift: nat, offset: nat, ghost index: Index, ghost neat: bool)
      returns (n: Node?)
      requires Ok() && shift % 6 == 0 && shift <= 60
      requires AtSlot(t, node, shift + 6, offset, child, index)
      requires neat ==> Busy(t, Up(node)) && HighRoot(t, index)
      modifies this, pool, t.nodes.Keys
      ensures Ok() && M == old(M) && K == old(K)
      ensures n == null ==> child == Null && t == old(t) && index !in M && old(pool.nr) == 0 && pool.nr == 0
      ensures n != null ==> t.nodes.Keys == old(t.nodes.Keys) + {n} && (n in old(t).nodes || fresh(n))
      ensures n != null ==> n in t.nodes && RecOk(t.nodes[n]) && t.nodes[n].shift == shift && Covers(t.nodes[n], index)
      ensures n != null && neat ==> Busy(t, Some(n)) && HighRoot(t, index)
      ensures n != null ==> HeadShift(t) == if node == null then shift + 6 else old(HeadShift(t))
      ensures child != Null ==> t == old(t) && pool.Account() == old(pool.Account())
      ensures pool.made == old(pool.made) + if child == Null && n != null then 1 else 0
      ensures child == Null ==> index !in M
      ensures child == Null ==> !HasLeaf(old(t), index)
      ensures Charged(old(pool.Account()), pool.Account(), n == null)
    {
      assert node != null ==> SlotOk(t.nodes, node, offset);
      if child == Null {
        NullMeansAbsent(t, M, node, shift + 6, offset, index);
        NoLeafBelow(t, node, shift + 6, offset, index);
        if node == null {
          n := AddTop(shift, index);
        } else {
          n := AddBelow(node, shift, offset, index, neat);
        }
      } else {
        n := child.node;
        if node != null {
          ChildCovers(t, node, index);
          SlotCounts(t, M, node, offset);
        }
        assert RecOk(t.nodes[n]);
      }
    }

    /** A new node without entries; idr_get_free marks all its slots free. */
    method NewNode(p: Node?, shift: nat, offset: nat, ghost home: Index) returns (n: Node?)
      requires Coupled()
      modifies pool
      ensures Coupled()
      ensures n == null ==> old(pool.nr) == 0 && pool.nr == 0
      ensures Charged(old(pool.Account()), pool.Account(), n == null)
      ensures pool.made == old(pool.made) + if n != null then 1 else 0
      ensures n != null ==>
        fresh(n) && n !in t.nodes && n !in freed &&
          n.View() == FreshRec(Up(p), shift, offset, Shr(home, shift + 6), FreshTags(idr))
    {
      n := pool.Alloc(p, shift, offset, 0, 0, home);
      if n == null { return; }
      assert n !in t.nodes.Keys && n !in freed;
      if idr {
        n.tags := [AllSlots(), {}, {}];
      }
    }

    /** A new node for the empty slot `offset` of `p`. */
    method AddBelow(p: Node, shift: nat, offset: nat, ghost index: Index, ghost neat: bool) returns (n: Node?)
      requires Ok() && shift % 6 == 0 && shift <= 60
      requires p in t.nodes && RecOk(t.nodes[p]) && t.nodes[p].shift == shift + 6 &&
        t.nodes[p].slots[offset % 64] == Null
      requires Covers(t.nodes[p], index) && offset == Digit(index, shift + 6)
      requires neat ==> Busy(t, Some(p)) && HighRoot(t, index)
      modifies this, pool, p
      ensures Ok() && M == old(M) && K == old(K)
      ensures n == null ==> t == old(t) && old(pool.nr) == 0 && pool.nr == 0
      ensures Charged(old(pool.Account()), pool.Account(), n == null)
      ensures pool.made == old(pool.made) + if n != null then 1 else 0
      ensures n != null ==> fresh(n) && t.nodes.Keys == old(t.nodes.Keys) + {n}
      ensures n != null && neat ==> Busy(t, Some(n)) && HighRoot(t, index)
      ensures n != null ==> RecOk(t.nodes[n]) && t.nodes[n].shift == shift && Covers(t.nodes[n], index)
      ensures n != null ==> HeadShift(t) == old(HeadShift(t))
    {
      ghost var s := t;
      assert p.View() == t.nodes[p];
      assert Shr(index, shift + 12) == Shr(index, shift + 6) / 64;
      n := NewNode(p, shift, offset, index);
      if n == null { return; }
      AddBelowStep(s, M, K, p, offset, n, index);
      Graft(p, offset, n);
    }

    /** A new root for an empty tree. */
    method AddTop(shift: nat, ghost index: Index) returns (n: Node?)
      requires Ok() && shift % 6 == 0 && shift <= 60
      requires head == Null && Shr(index, shift + 6) == 0 && (Shr(index, shift) > 0 || (idr && shift == 0))
      modifies this, pool
      ensures Ok() && M == old(M) && K == old(K)
      ensures n == null ==> t == old(t) && old(pool.nr) == 0 && pool.nr == 0
      ensures Charged(old(pool.Account()), pool.Account(), n == null)
      ensures pool.made == old(pool.made) + if n != null then 1 else 0
      ensures n != null ==> fresh(n) && t.nodes.Keys == old(t.nodes.Keys) + {n}
      ensures n != null ==> RecOk(t.nodes[n]) && t.nodes[n].shift == shift && Covers(t.nodes[n], index)
      ensures n != null ==> Busy(t, Some(n)) && HighRoot(t, index) && HeadShift(t) == shift + 6
    {
      ghost var s := t;
      n := NewNode(null, shift, 0, index);
      if n == null { return; }
      Plant(n, shift);
      AddRootTags(s, M, K, n, shift);
      assert RecOk(t.nodes[n]);
      if Shr(index, shift) > 0 { TopDigit(index, shift); }
    }

    // -------------------------------------------------------------- insertion and lookup

    /** radix_tree_insert. */
    method Insert(index: nat, item: Entry<Node>) returns (err: int)
      requires Ok() && !idr && index < WORD && item.Data()
      modifies this, pool, t.nodes.Keys
      ensures Ok() && K == old(K)
      ensures forall n :: n in t.nodes ==> n in old(t).nodes || fresh(n)
      ensures err != -ENOMEM && old(Minimal(t)) ==> Minimal(t)
      ensures err == 0 || err == -EEXIST || err == -ENOMEM
      ensures err == -EEXIST <==> index in old(M)
      ensures err == -EEXIST ==> t == old(t)
      ensures M == if err == 0 then old(M)[index := item] else old(M)
      ensures err == -ENOMEM ==> old(pool.nr) < PRELOAD_SIZE
      ensures Charged(old(pool.Account()), pool.Account(), err == -ENOMEM)
      ensures pool.made <= old(pool.made) + PRELOAD_SIZE
      ensures HasSlot(old(t), index) ==>
        err != -ENOMEM && t.nodes.Keys == old(t).nodes.Keys && pool.Account() == old(pool.Account())
    {
      var node, offset;
      err, node, offset := Create(index);
      if err == 0 {
        err := InsertEntries(node, offset, item, index);
      }
    }

    /** insert_entries, and the BUG_ON checks of radix_tree_insert that the slot carries no tags. */
    method InsertEntries(node: Node?, offset: nat, item: Entry<Node>, ghost index: nat) returns (err: int)
      requires Ok() && !idr && index < WORD && item.Data() && SlotFor(t, node, offset, index)
      modifies this, t.nodes.Keys
      ensures Ok() && K == old(K) && t.nodes.Keys == old(t.nodes.Keys)
      ensures err == if index in old(M) then -EEXIST else 0
      ensures err != 0 ==> t == old(t) && M == old(M)
      ensures err == 0 ==> M == old(M)[index := item]
      ensures err == 0 && old(Busy(t, Up(node)) && HighRoot(t, index)) ==> Minimal(t)
    {
      assert node != null ==> node.View() == t.nodes[node] && RecOk(t.nodes[node]);
      if (if node == null then head else node.slots[offset]) != Null {
        SlotHolds(t, M, node, offset, index);
        return -EEXIST;
      }
      ghost var s := t;
      AbsentSlot(t, M, node, offset, index);
      if node == null {
        head := item;
        t := t.(head := item);
        StoreHeadTags(s, M, K, item);
        assert rootTags * {0, 1, 2} == {};
      } else {
        LeafKey(t.nodes[node], index);
        StoreSlot(node, offset, item);
        StoreTags(s, M, K, node, offset, index, item);
        if Busy(s, Up(node)) && HighRoot(s, index) { StoreMinimal(s, M, node, offset, index, item); }
        assert node.View() == t.nodes[node] && node.tags == s.nodes[node].tags;
        assert offset !in node.tags[0] && offset !in node.tags[1] && offset !in node.tags[2];
      }
      M := M[index := item];
      return 0;
    }

    /** __radix_tree_lookup without a concurrent writer: what `index` holds, and where. `found` is
        whether the source has set the slot pointer. */
    method Lookup(index: nat) returns (entry: Entry<Node>, node: Node?, offset: nat, found: bool)
      requires Ok() && index < WORD
      ensures entry == if index in M then M[index] else Null
      ensures index in M ==> found
      ensures found ==> Loaded(t, node, offset, entry, index)
    {
      var maxindex, s;
      entry, s, maxindex := LoadRoot();
      MaxIndexIs(t, index);
      node, offset, found := null, 0, false;
      if index > maxindex {
        if index in M { InRange(t, M, index); }
        return Null, null, 0, false;
      }
      found := true;
      ghost var above := HeadShift(t);
      while entry.Internal?
        invariant node == null ==> entry == head && above == HeadShift(t) && Shr(index, above) == 0 && offset == 0
        invariant node != null ==>
          node in t.nodes && RecOk(t.nodes[node]) && t.nodes[node].shift == above && Covers(t.nodes[node], index)
        invariant node != null ==>
          offset == Digit(index, above) && entry == t.nodes[node].slots[offset] && SlotOk(t.nodes, node, offset)
        decreases above
      {
        if node == null {
          assert entry.node in t.nodes && Covers(t.nodes[entry.node], index);
        } else {
          ChildCovers(t, node, index);
        }
        node := entry.node;
        assert RecOk(t.nodes[node]) && node.View() == t.nodes[node];
        above := node.shift;
        offset := Digit(index, node.shift);
        entry := node.slots[offset];
        assert SlotOk(t.nodes, node, offset);
        if node.shift == 0 {
          break;
        }
      }
      if node != null {
        LoadedIs(t, M, node, offset, index);
      }
    }

    // -------------------------------------------------------------- tags

    /** node_tag_clear: unmarks `k` and clears the bits above it that no longer stand for anything. */
    method NodeTagClear(node0: Node?, tag: nat, offset0: nat, ghost k: nat)
      requires Coupled() && BaseOk(t, M) && TagsOk(t, K) && tag < MAX_TAGS
      requires SlotFor(t, node0, offset0, k) && (node0 == null ==> head.Data())
      modifies this, t.nodes.Keys
      ensures Coupled() && BaseOk(t, M) && TagsOk(t, K) && M == old(M) && SameButTags(old(t), t)
      ensures K == old(K)[tag := old(K)[tag] - iset{k}] && freed == old(freed)
    {
      var node, offset := node0, offset0;
      K := K[tag := K[tag] - iset{k}];
      UnmarkStart(t, old(K), K, node, tag, offset, k);
      while node != null
        invariant Coupled() && BaseOk(t, M) && M == old(M) && SameButTags(old(t), t)
        invariant K == old(K)[tag := old(K)[tag] - iset{k}] && freed == old(freed)
        invariant BitTodo(t, K, tag, node, offset, false)
        decreases if node == null then 0 else 66 - t.nodes[node].shift
      {
        var done := ClearStepAt(node, tag, offset);
        if done {
          return;
        }
        offset, node := At(node).offset, At(node).parent;
      }
      RootTagClear(tag);
    }

    /** One round of node_tag_clear; `done` when the source returns. */
    method ClearStepAt(node: Node, tag: nat, offset: nat) returns (done: bool)
      requires Coupled() && BaseOk(t, M) && BitTodo(t, K, tag, node, offset, false)
      modifies this`t, node
      ensures Coupled() && BaseOk(t, M) && SameButTags(old(t), t)
      ensures done ==> TagsOk(t, K)
      ensures !done ==> BitTodo(t, K, tag, node.parent, node.offset, false)
      ensures node in t.nodes
      ensures !done && node.parent != null ==> t.nodes[node.parent].shift == t.nodes[node].shift + 6
    {
      assert node.View() == t.nodes[node];
      if offset !in At(node).tags[tag] {
        assert BitOk(t, K, tag, node, offset);
        return true;
      }
      ClearStep(t, M, K, Bit(tag, node, offset));
      TagClearBit(node, tag, offset);
      assert node.View() == t.nodes[node];
      return At(node).tags[tag] != {};
    }

    /** The end of node_tag_clear. */
    method RootTagClear(tag: nat)
      requires Coupled() && BaseOk(t, M) && BitTodo(t, K, tag, null, 0, false)
      modifies this`t, this`rootTags
      ensures Coupled() && BaseOk(t, M) && TagsOk(t, K) && t == old(t).(rootTags := old(t).rootTags - {tag})
    {
      RootTagsBase(t, M, rootTags - {tag});
      RootTagsBits(t, K, None, rootTags - {tag});
      RootTagFixed(t, K, tag, rootTags - {tag});
      if tag in rootTags {
        rootTags := rootTags - {tag};
      }
      t := t.(rootTags := rootTags);
      assert rootTags == old(rootTags) - {tag};
    }

    /** node_tag_set: marks `k` and sets the bits above it. */
    method NodeTagSet(node0: Node?, tag: nat, offset0: nat, ghost k: nat)
      requires Coupled() && BaseOk(t, M) && TagsOk(t, K) && tag < MAX_TAGS
      requires SlotFor(t, node0, offset0, k) && (node0 == null ==> head.Data())
      modifies this, t.nodes.Keys
      ensures Coupled() && BaseOk(t, M) && TagsOk(t, K) && M == old(M) && SameButTags(old(t), t)
      ensures K == old(K)[tag := old(K)[tag] + iset{k}] && freed == old(freed)
    {
      var node, offset := node0, offset0;
      K := K[tag := K[tag] + iset{k}];
      UnmarkStart(t, old(K), K, node, tag, offset, k);
      while node != null
        invariant Coupled() && BaseOk(t, M) && M == old(M) && SameButTags(old(t), t)
        invariant K == old(K)[tag := old(K)[tag] + iset{k}] && freed == old(freed)
        invariant BitTodo(t, K, tag, node, offset, true)
        decreases if node == null then 0 else 66 - t.nodes[node].shift
      {
        var done := SetStepAt(node, tag, offset);
        if done {
          return;
        }
        offset, node := node.offset, node.parent;
      }
      RootTagSet(tag);
    }

    /** One round of node_tag_set; `done` when the source returns. */
    method SetStepAt(node: Node, tag: nat, offset: nat) returns (done: bool)
      requires Coupled() && BaseOk(t, M) && BitTodo(t, K, tag, node, offset, true)
      modifies this`t, node
      ensures Coupled() && BaseOk(t, M) && SameButTags(old(t), t)
      ensures done ==> TagsOk(t, K)
      ensures !done ==> BitTodo(t, K, tag, node.parent, node.offset, true)
      ensures !done && node.parent != null ==> node in t.nodes && t.nodes[node.parent].shift == t.nodes[node].shift + 6
    {
      assert node.View() == t.nodes[node];
      if offset in node.tags[tag] {
        assert BitOk(t, K, tag, node, offset);
        return true;
      }
      SetStep(t, M, K, Bit(tag, node, offset));
      TagSetBit(node, tag, offset);
      assert node.View() == t.nodes[node];
      return false;
    }

    /** The end of node_tag_set. */
    method RootTagSet(tag: nat)
      requires Coupled() && BaseOk(t, M) && BitTodo(t, K, tag, null, 0, true)
      modifies this`t, this`rootTags
      ensures Coupled() && BaseOk(t, M) && TagsOk(t, K) && t == old(t).(rootTags := old(t).rootTags + {tag})
    {
      RootTagsBase(t, M, rootTags + {tag});
      RootTagsBits(t, K, None, rootTags + {tag});
      RootTagFixed(t, K, tag, rootTags + {tag});
      if tag !in rootTags {
        rootTags := rootTags + {tag};
      }
      t := t.(rootTags := rootTags);
      assert rootTags == old(rootTags) + {tag};
    }

    // -------------------------------------------------------------- deletion

    /** The tests of radix_tree_shrink: the root has one child, in slot 0, and may give way to it. */
    method ShrinkWanted() returns (wanted: bool)
      requires Coupled() && Shape(t)
      ensures wanted <==> head.Internal? && head.node in t.nodes && ShrinkTest(t.nodes[head.node], idr)
    {
      if !head.Internal? {
        return false;
      }
      assert RecOk(t.nodes[head.node]) && head.node.View() == t.nodes[head.node];
      var node := At(head.node);
      if node.count != 1 {
        return false;
      }
      var child := node.slots[0];
      if child == Null {
        return false;
      }
      return node.shift != 0 || !idr;
    }

    /** radix_tree_shrink: while the root has one child, in slot 0, that child becomes the head. */
    method Shrink() returns (shrunk: bool)
      requires Ok()
      modifies this, t.nodes.Keys
      ensures Ok() && M == old(M) && K == old(K)
      ensures t.nodes.Keys <= old(t.nodes.Keys) && RootMinimal(t) && HeadShift(t) <= old(HeadShift(t))
      ensures old(Busy(t, None)) ==> Minimal(t)
      ensures freed + t.nodes.Keys == old(freed + t.nodes.Keys)
      ensures if shrunk then old(head).Internal? && old(head).node !in t.nodes else t == old(t)
    {
      shrunk := false;
      while true
        invariant Ok() && M == old(M) && K == old(K)
        invariant t.nodes.Keys <= old(t.nodes.Keys) && freed + t.nodes.Keys == old(freed + t.nodes.Keys)
        invariant (old(Busy(t, None)) ==> Busy(t, None)) && HeadShift(t) <= old(HeadShift(t))
        invariant if shrunk then old(head).Internal? && old(head).node !in t.nodes else t == old(t)
        decreases HeadShift(t)
      {
        var wanted := ShrinkWanted();
        if !wanted {
          break;
        }
        ShrinkOnce();
        shrunk := true;
      }
    }

    /** One round of radix_tree_shrink. */
    method ShrinkOnce()
      requires Ok() && head.Internal? && ShrinkTest(t.nodes[head.node], idr)
      modifies this, t.nodes.Keys
      ensures Ok() && M == old(M) && K == old(K)
      ensures t.nodes.Keys == old(t.nodes.Keys) - {old(head).node} && freed == old(freed) + {old(head).node}
      ensures old(Busy(t, None)) ==> Busy(t, None)
      ensures HeadShift(t) < old(HeadShift(t))
    {
      ghost var s := t;
      var node := head.node;
      assert node.View() == t.nodes[node] && RecOk(t.nodes[node]) && SlotOk(t.nodes, node, 0);
      LowerTags(t, M, K, if idr && 0 !in At(node).tags[FREE] then rootTags - {FREE} else rootTags);
      LowerHead();
      if Busy(s, None) { LowerBusy(s, t.rootTags); }
    }

    /** delete_node: frees `node0` and its ancestors while they are empty, then shrinks the root. */
    method DeleteNode(node0: Node) returns (deleted: bool)
      requires Ok() && node0 in t.nodes
      modifies this, t.nodes.Keys
      ensures Ok() && M == old(M) && K == old(K)
      ensures t.nodes.Keys <= old(t.nodes.Keys) && HeadShift(t) <= old(HeadShift(t))
      ensures old(MinimalBut(t, node0)) ==> Minimal(t)
      ensures deleted <==> node0 !in t.nodes
      ensures !deleted ==> t.nodes[node0].count > 0
      ensures freed + t.nodes.Keys == old(freed + t.nodes.Keys)
    {
      deleted := false;
      var node: Node? := node0;
      while node != null
        invariant Ok() && M == old(M) && K == old(K)
        invariant t.nodes.Keys <= old(t.nodes.Keys) && freed + t.nodes.Keys == old(freed + t.nodes.Keys)
        invariant (node != null ==> node in t.nodes) && HeadShift(t) <= old(HeadShift(t))
        invariant old(MinimalBut(t, node0)) ==> if node != null then MinimalBut(t, node) else Minimal(t)
        invariant if deleted then node0 !in t.nodes else node == node0 && t == old(t)
        decreases t.nodes.Keys
      {
        assert node.View() == t.nodes[node];
        if At(node).count != 0 {
          CountPositive(t, M, node);
          var shrunk := TopOnly(node);
          deleted := deleted || shrunk;
          return;
        }
        var up := At(node).parent;
        FreeNode(node);
        deleted := true;
        node := up;
      }
    }

    /** The end of delete_node, at a node that stays unless it is the root and can be shrunk. */
    method TopOnly(node: Node) returns (shrunk: bool)
      requires Ok() && node in t.nodes && t.nodes[node].count > 0
      modifies this, t.nodes.Keys
      ensures Ok() && M == old(M) && K == old(K)
      ensures t.nodes.Keys <= old(t.nodes.Keys) && freed + t.nodes.Keys == old(freed + t.nodes.Keys)
      ensures (old(MinimalBut(t, node)) ==> Minimal(t)) && HeadShift(t) <= old(HeadShift(t))
      ensures if shrunk then node !in t.nodes else t == old(t)
    {
      shrunk := false;
      if head.Internal? && head.node == node {
        shrunk := Shrink();
      }
    }

    /** The rest of the round of delete_node that frees an empty node. */
    method FreeNode(node: Node)
      requires Ok() && node in t.nodes && node.count == 0
      modifies this, t.nodes.Keys
      ensures Ok() && M == old(M) && K == old(K)
      ensures t.nodes.Keys == old(t.nodes.Keys) - {node} && freed == old(freed) + {node}
      ensures (old(node.parent) != null ==> old(node.parent) in t.nodes) && HeadShift(t) <= old(HeadShift(t))
      ensures old(MinimalBut(t, node)) ==>
        if old(node.parent) != null then MinimalBut(t, old(node.parent)) else Minimal(t)
    {
      assert node.View() == t.nodes[node] && ParentOk(t, node) && RecOk(t.nodes[node]);
      ghost var s := t;
      if At(node).parent != null {
        UnlinkTags(t, M, K, node);
        ParentFacts(t, node, node.parent);
        assert node.parent.View() == t.nodes[node.parent];
        Detach(node);
        if MinimalBut(s, node) { UnlinkMinimal(s, node); }
      } else {
        DropRootTags(t, M, K, if idr then rootTags else {});
        if !idr {
          rootTags := {};
        }
        head := Null;
        t := DropRoot(t, rootTags);
      }
      freed := freed + {node};
    }

    /** __radix_tree_delete at the slot of a present index. */
    method DeleteAt(node: Node?, offset: nat, ghost k: nat) returns (deleted: bool)
      requires Ok() && k in M && SlotFor(t, node, offset, k)
      modifies this, t.nodes.Keys
      ensures Ok() && M == old(M) - {k}
      ensures !idr ==> forall g :: 0 <= g < MAX_TAGS ==> K[g] == old(K)[g] - iset{k}
      ensures t.nodes.Keys <= old(t.nodes.Keys) && (old(Minimal(t)) ==> Minimal(t))
      ensures if node == null then !deleted else deleted <==> node !in t.nodes
      ensures (node != null && !deleted ==> t.nodes[node].count > 0) && HeadShift(t) <= old(HeadShift(t))
      ensures freed + t.nodes.Keys == old(freed + t.nodes.Keys)
    {
      assert node == null ==> head.Data() && M == map[0 := head];
      Unmark(node, offset, k);
      HeadShiftSame(old(t), t);
      if old(Minimal(t)) { SameMinimal(old(t), t); }
      if node == null {
        ClearHead();
        return false;
      }
      ClearSlot(node, offset, k);
      deleted := DeleteNode(node);
    }

    /** replace_slot on the head of a tree without nodes. */
    method ClearHead()
      requires Coupled() && BaseOk(t, M) && TagsOk(t, K) && MarksOk(idr, M - {0}, K) && head.Data()
      modifies this
      ensures Ok() && M == old(M) - {0} && K == old(K) && Minimal(t) && t.nodes == old(t).nodes && freed == old(freed)
    {
      forall g | 0 <= g < MAX_TAGS ensures K[g] == iset{} { NoMarks(M - {0}, K[g]); }
      EraseHeadTags(t, M, K);
      head := Null;
      t := t.(head := Null);
      M := M - {0};
      assert M == map[];
    }

    /** replace_slot on a leaf slot whose tags have been taken care of. */
    method ClearSlot(node: Node, offset: nat, ghost k: nat)
      requires Coupled() && BaseOk(t, M) && TagsOk(t, K) && MarksOk(idr, M - {k}, K)
      requires k in M && SlotFor(t, node, offset, k)
      modifies this, t.nodes.Keys
      ensures Ok() && M == old(M) - {k} && K == old(K) && t.nodes.Keys == old(t.nodes.Keys) && freed == old(freed)
      ensures (old(Minimal(t)) ==> MinimalBut(t, node)) && HeadShift(t) == old(HeadShift(t))
    {
      EraseAll(t, M, K, node, offset, k);
      assert node.View() == t.nodes[node];
      EraseSlot(node, offset);
      M := M - {k};
    }

    /** The tag part of __radix_tree_delete: the index is free in an IDR, untagged otherwise. */
    method Unmark(node: Node?, offset: nat, ghost k: nat)
      requires Ok() && k in M && SlotFor(t, node, offset, k)
      modifies this, t.nodes.Keys
      ensures Coupled() && BaseOk(t, M) && TagsOk(t, K) && M == old(M) && SameButTags(old(t), t)
      ensures MarksOk(idr, M - {k}, K) && SlotFor(t, node, offset, k) && freed == old(freed)
      ensures !idr ==> forall g :: 0 <= g < MAX_TAGS ==> K[g] == old(K)[g] - iset{k}
    {
      if idr {
        NodeTagSet(node, FREE, offset, k);
      } else {
        for tag := 0 to MAX_TAGS
          invariant Coupled() && BaseOk(t, M) && TagsOk(t, K) && M == old(M) && SameButTags(old(t), t)
          invariant SlotFor(t, node, offset, k) && freed == old(freed)
          invariant forall g :: 0 <= g < MAX_TAGS ==> K[g] == if g < tag then old(K)[g] - iset{k} else old(K)[g]
        {
          ghost var s := t;
          NodeTagClear(node, tag, offset, k);
          SlotForStays(s, t, node, offset, k);
        }
      }
    }

    /** radix_tree_delete_item; a Null `item` matches any entry, as radix_tree_delete asks. */
    method DeleteItem(index: nat, item: Entry<Node>) returns (entry: Entry<Node>)
      requires Ok() && index < WORD
      modifies this, t.nodes.Keys
      ensures Ok() && (old(Minimal(t)) ==> Minimal(t)) && t.nodes.Keys <= old(t.nodes.Keys)
      ensures HeadShift(t) <= old(HeadShift(t))
      ensures freed + t.nodes.Keys == old(freed + t.nodes.Keys)
      ensures var hit := index in old(M) && (item == Null || old(M)[index] == item);
        && entry == (if hit then old(M)[index] else Null)
        && M == (if hit then old(M) - {index} else old(M))
        && (!hit ==> t == old(t) && K == old(K))
        && (hit && !idr ==> forall g :: 0 <= g < MAX_TAGS ==> K[g] == old(K)[g] - iset{index})
    {
      var node, offset, found;
      entry, node, offset, found := Lookup(index);
      if !found {
        return Null;
      }
      assert node != null ==> node.View() == t.nodes[node];
      FreeBitMeans(t, M, K, node, offset, index);
      if entry == Null && (!idr || (if node == null then FREE in rootTags else offset in node.tags[FREE])) {
        return Null;
      }
      if item != Null && entry != item {
        return Null;
      }
      var _ := DeleteAt(node, offset, index);
    }

    // -------------------------------------------------------------- tags by index

    /** radix_tree_tag_set: sets the bits on the way down. The index must be present. */
    method TagSet(index: nat, tag: nat) returns (entry: Entry<Node>)
      requires Ok() && !idr && index in M && tag < MAX_TAGS
      modifies this, t.nodes.Keys
      ensures Ok() && M == old(M) && SameButTags(old(t), t)
      ensures K == old(K)[tag := old(K)[tag] + iset{index}]
      ensures entry == M[index] && (old(Minimal(t)) ==> Minimal(t))
    {
      InRange(t, M, index);
      entry := head;
      var node: Node?, offset := null, 0;
      while entry.Internal?
        invariant Coupled() && M == old(M) && K == old(K) && SameButTags(old(t), t)
        invariant TagDescent(t, M, K, tag, node, offset, entry, index)
        decreases if node == null then HeadShift(t) else t.nodes[node].shift
      {
        node, offset, entry := TagStepDown(node, offset, entry, tag, index);
      }
      MarkRoot(node, offset, entry, tag, index);
      if old(Minimal(t)) { SameMinimal(old(t), t); }
    }

    /** The end of radix_tree_tag_set. */
    method MarkRoot(ghost node: Node?, ghost offset: nat, entry: Entry<Node>, tag: nat, ghost index: nat)
      requires Coupled() && TagDescent(t, M, K, tag, node, offset, entry, index) && !entry.Internal?
      requires index in M && !idr && MarksOk(idr, M, K)
      modifies this
      ensures Ok() && M == old(M) && t == old(t).(rootTags := old(t).rootTags + {tag})
      ensures K == old(K)[tag := old(K)[tag] + iset{index}] && entry == M[index]
    {
      K := K[tag := K[tag] + iset{index}];
      TagDescentEnd(t, M, old(K), K, tag, node, offset, entry, index);
      RootTagSet(tag);
    }

    /** One round of radix_tree_tag_set. */
    method TagStepDown(node: Node?, offset: nat, entry: Entry<Node>, tag: nat, index: nat)
      returns (n: Node, o: nat, e: Entry<Node>)
      requires Coupled() && TagDescent(t, M, K, tag, node, offset, entry, index) && entry.Internal? && index in M
      requires index < WORD
      modifies this`t, t.nodes.Keys
      ensures Coupled() && SameButTags(old(t), t) && TagDescent(t, M, K, tag, n, o, e, index)
      ensures n in t.nodes && t.nodes[n].shift < if node == null then HeadShift(t) else t.nodes[node].shift
    {
      n := entry.node;
      TagDescentDown(t, M, K, tag, node, offset, n, index);
      assert n.View() == t.nodes[n];
      o := Digit(index, n.shift);
      e := n.slots[o];
      ghost var s := t;
      TagSetBit(n, tag, o);
    }

    /** radix_tree_tag_clear. */
    method TagClear(index: nat, tag: nat) returns (entry: Entry<Node>)
      requires Ok() && !idr && index < WORD && tag < MAX_TAGS
      modifies this, t.nodes.Keys
      ensures Ok() && M == old(M) && SameButTags(old(t), t)
      ensures K == old(K)[tag := old(K)[tag] - iset{index}]
      ensures entry == (if index in M then M[index] else Null) && (old(Minimal(t)) ==> Minimal(t))
    {
      var node, offset, found;
      entry, node, offset, found := Lookup(index);
      if entry != Null {
        FreeBitMeans(t, M, K, node, offset, index);
        NodeTagClear(node, tag, offset, index);
        if old(Minimal(t)) { SameMinimal(old(t), t); }
      } else {
        assert K[tag] - iset{index} == K[tag] by { assert index !in M; }
        assert K == K[tag := K[tag] - iset{index}];
      }
    }

    /** radix_tree_tag_get reads one bit a level, and is exact. */
    method TagGet(index: nat, tag: nat) returns (tagged: bool)
      requires Ok() && !idr && index < WORD && tag < MAX_TAGS
      ensures tagged <==> index in K[tag]
    {
      RootTagMeaning(t, M, K, tag);
      if tag !in rootTags {
        return false;
      }
      var entry, s, maxindex := LoadRoot();
      MaxIndexIs(t, index);
      if index > maxindex {
        if index in K[tag] { InRange(t, M, index); }
        return false;
      }
      var node: Node?, offset := null, 0;
      while entry.Internal?
        invariant BitDescent(t, tag, node, offset, entry, index)
        decreases if node == null then HeadShift(t) else t.nodes[node].shift
      {
        if node != null { ChildCovers(t, node, index); }
        node := entry.node;
        assert RecOk(t.nodes[node]) && node.View() == t.nodes[node];
        offset := Digit(index, node.shift);
        entry := node.slots[offset];
        if offset !in node.tags[tag] {
          ClearMeansUnmarked(t, M, K, node, tag, index);
          return false;
        }
      }
      BitDescentEnd(t, M, K, tag, node, offset, entry, index);
      return true;
    }
  }
}
