/** Chunked iteration: radix_tree_next_chunk, radix_tree_next_slot and the loops built on them. */
module Iteration {
  import opened Words
  import opened TreeHeap
  import opened TreeSteps
  import opened TreeTags
  import opened Canonical
  import opened RadixTree
  import opened Iter

  /** RADIX_TREE_ITER_TAGGED with its tag, and RADIX_TREE_ITER_CONTIG. */
  datatype Flags = Flags(tagged: bool, tag: nat, contig: bool)

  /** The indices an iteration is after: the present ones, or the tagged ones. */
  ghost function Sought(M: Content<Node>, K: Marks, f: Flags): iset<nat>
    requires f.tag < |K|
  {
    if f.tagged then K[f.tag] else KeySet(M)
  }

  ghost function KeySet(M: Content<Node>): iset<nat> { iset k | k in M }

  /** The test for a hole at a slot. */
  predicate Hole(slots: seq<Entry<Node>>, tags: seq<set<nat>>, f: Flags, i: nat)
    requires i < |slots| && f.tag < |tags|
  {
    if f.tagged then i !in tags[f.tag] else slots[i] == Null
  }

  ghost predicate Clear(X: iset<nat>, a: nat, b: nat) { forall x :: a <= x < b ==> x !in X }

  /** Nothing is sought below a hole. */
  lemma HoleMeans(t: Tree<Node>, M: Content<Node>, K: Marks, f: Flags, n: Node, i: nat)
    requires TreeOk(t, M, K) && !t.idr && n in t.nodes && i < 64 && f.tag < MAX_TAGS && RecOk(t.nodes[n])
    requires Hole(t.nodes[n].slots, t.nodes[n].tags, f, i)
    ensures !AnyMarked(Sought(M, K, f), t.nodes[n].shift, 64 * t.nodes[n].prefix + i)
  {
    var r, X := t.nodes[n], Sought(M, K, f);
    if f.tagged {
      BitMeaning(t, M, K, n, f.tag, i);
    } else {
      forall k | k in X ensures !Under(k, r.shift, 64 * r.prefix + i) {
        if Under(k, r.shift, 64 * r.prefix + i) { KeyBelow(t, M, n, i, k); }
      }
    }
  }

  /** A present index below a slot has its entry there, or a child on the way to it. */
  lemma KeyBelow(t: Tree<Node>, M: Content<Node>, n: Node, i: nat, k: nat)
    requires BaseOk(t, M) && !t.idr && n in t.nodes && i < 64 && RecOk(t.nodes[n])
    requires k in M && Under(k, t.nodes[n].shift, 64 * t.nodes[n].prefix + i)
    ensures t.nodes[n].slots[i] != Null && (t.nodes[n].shift == 0 ==> k == 64 * t.nodes[n].prefix + i)
  {
    var r := t.nodes[n];
    UnderUp(k, r.shift, r.prefix, i);
    if r.shift == 0 {
      BlockZero(k, r.prefix, i);
      assert LeafOk(r, M, i);
    } else {
      assert LeadsTo(r, k);
    }
  }

  /** A slot that is no hole holds its index at a leaf, and a child elsewhere. */
  lemma NoHole(t: Tree<Node>, M: Content<Node>, K: Marks, f: Flags, n: Node, i: nat)
    requires TreeOk(t, M, K) && !t.idr && n in t.nodes && i < 64 && f.tag < MAX_TAGS && RecOk(t.nodes[n])
    requires !Hole(t.nodes[n].slots, t.nodes[n].tags, f, i)
    ensures t.nodes[n].slots[i] != Null
    ensures t.nodes[n].shift > 0 ==> t.nodes[n].slots[i].Internal?
    ensures t.nodes[n].shift == 0 ==> 64 * t.nodes[n].prefix + i in Sought(M, K, f)
  {
    var r := t.nodes[n];
    assert SlotOk(t.nodes, n, i);
    if f.tagged {
      BitMeaning(t, M, K, n, f.tag, i);
      var k :| k in K[f.tag] && Under(k, r.shift, 64 * r.prefix + i);
      assert k in M;
      KeyBelow(t, M, n, i, k);
    } else if r.shift == 0 {
      assert LeafOk(r, M, i);
    }
  }

  /** The next slot of `node` that is no hole, and the index it starts at, modulo 2^64. */
  method SkipHole(root: Root, node: Node, offset: nat, index: nat, f: Flags) returns (o: nat, idx: nat)
    requires root.Ok() && !root.idr && node in root.t.nodes && RecOk(root.t.nodes[node]) && f.tag < MAX_TAGS &&
      index < WORD
    requires Covers(root.t.nodes[node], index) && offset == Digit(index, root.t.nodes[node].shift)
    requires Hole(root.t.nodes[node].slots, root.t.nodes[node].tags, f, offset)
    ensures offset < o <= 64 && (o < 64 ==> !Hole(root.t.nodes[node].slots, root.t.nodes[node].tags, f, o))
    ensures idx == 0 ==> Clear(Sought(root.M, root.K, f), index, WORD)
    ensures idx != 0 ==>
      index < idx < WORD && idx == First(root.t.nodes[node].shift, 64 * root.t.nodes[node].prefix + o)
    ensures idx != 0 ==> Clear(Sought(root.M, root.K, f), index, idx)
  {
    assert node.View() == root.t.nodes[node];
    if f.tagged {
      o := NextBit(root.At(node).tags[f.tag], offset + 1);
    } else {
      o := offset + 1;
      while o < 64 && root.At(node).slots[o] == Null
        invariant offset < o <= 64
        invariant forall x :: offset < x < o ==> node.slots[x] == Null
      {
        o := o + 1;
      }
    }
    idx := NextIndex(index, root.At(node).shift, o);
    Places(root);
    SkipHoleMeans(root.t, root.M, root.K, f, node, offset, o, index);
  }

  /** Nodes stand where they were allocated. */
  ghost predicate Homes(t: Tree<Node>) {
    forall n {:trigger t.nodes[n]} :: n in t.nodes ==> t.nodes[n].shift == n.shift && t.nodes[n].prefix == n.prefix
  }

  /** A node's position never changes. */
  lemma Places(root: Root)
    requires root.Coupled()
    ensures Homes(root.t)
  {
    forall n {:trigger root.t.nodes[n]} | n in root.t.nodes
      ensures root.t.nodes[n].shift == n.shift && root.t.nodes[n].prefix == n.prefix
    {
      assert n.View() == root.t.nodes[n];
    }
  }

  lemma SkipHoleMeans(t: Tree<Node>, M: Content<Node>, K: Marks, f: Flags, n: Node, i: nat, o: nat, index: nat)
    requires TreeOk(t, M, K) && Homes(t) && !t.idr && n in t.nodes && i < o <= 64 && f.tag < MAX_TAGS &&
      RecOk(t.nodes[n])
    requires index < WORD && Covers(t.nodes[n], index) && i == Digit(index, t.nodes[n].shift)
    requires forall x :: i <= x < o ==> Hole(t.nodes[n].slots, t.nodes[n].tags, f, x)
    requires o < 64 ==> !Hole(t.nodes[n].slots, t.nodes[n].tags, f, o)
    ensures var idx, X := NextIndex(index, t.nodes[n].shift, o), Sought(M, K, f);
      && (idx == 0 ==> Clear(X, index, WORD))
      && (idx != 0 ==>
        index < idx && idx == First(t.nodes[n].shift, 64 * t.nodes[n].prefix + o) && Clear(X, index, idx))
  {
    HolesClear(t, M, K, f, n, i, o, index);
    if o < 64 { SlotStart(t, M, K, f, n, o); } else { NodeEnd(t.nodes[n], index); }
    NextStart(t.nodes[n].shift, t.nodes[n].prefix, o, index);
  }

  /** next_index is the start of the slot, or 0 when that is 2^64 or four times as much. */
  lemma NextStart(s: nat, p: nat, o: nat, index: nat)
    requires Shr(index, s + 6) == p && index < WORD && Digit(index, s) < o <= 64
    requires First(s, 64 * p + o) <= WORD || First(s, 64 * p + o) == 4 * WORD
    ensures index < First(s, 64 * p + o)
    ensures NextIndex(index, s, o) == if First(s, 64 * p + o) < WORD then First(s, 64 * p + o) else 0
  {
    NextIndexWraps(index, s, o);
    FirstBelow(index, s, 64 * p + o);
    Wrapped(First(s, 64 * p + o));
  }

  lemma Wrapped(x: nat)
    requires x <= WORD || x == 4 * WORD
    ensures x % WORD == if x < WORD then x else 0
  {
  }

  lemma HolesClear(t: Tree<Node>, M: Content<Node>, K: Marks, f: Flags, n: Node, i: nat, o: nat, index: nat)
    requires TreeOk(t, M, K) && !t.idr && n in t.nodes && i < o <= 64 && f.tag < MAX_TAGS && RecOk(t.nodes[n])
    requires Covers(t.nodes[n], index) && i == Digit(index, t.nodes[n].shift)
    requires forall x :: i <= x < o ==> Hole(t.nodes[n].slots, t.nodes[n].tags, f, x)
    ensures Clear(Sought(M, K, f), index, First(t.nodes[n].shift, 64 * t.nodes[n].prefix + o))
  {
    var r, s := t.nodes[n], t.nodes[n].shift;
    forall x | index <= x < First(s, 64 * r.prefix + o) ensures x !in Sought(M, K, f) {
      FirstBelow(x, s, 64 * r.prefix + o);
      ShrMono(index, x, s);
      HoleMeans(t, M, K, f, n, Shr(x, s) - 64 * r.prefix);
      assert Under(x, s, 64 * r.prefix + (Shr(x, s) - 64 * r.prefix));
    }
  }

  /** A slot that is no hole starts within the 64-bit range. */
  lemma SlotStart(t: Tree<Node>, M: Content<Node>, K: Marks, f: Flags, n: Node, o: nat)
    requires TreeOk(t, M, K) && Homes(t) && !t.idr && n in t.nodes && o < 64 && f.tag < MAX_TAGS && RecOk(t.nodes[n])
    requires !Hole(t.nodes[n].slots, t.nodes[n].tags, f, o)
    ensures First(t.nodes[n].shift, 64 * t.nodes[n].prefix + o) < WORD
  {
    var r := t.nodes[n];
    NoHole(t, M, K, f, n, o);
    if r.shift == 0 {
      assert 64 * r.prefix + o in M;
      assert First(0, 64 * r.prefix + o) == 64 * r.prefix + o;
    } else {
      assert SlotOk(t.nodes, n, o);
      var c := r.slots[o].node;
      FirstBelow(c.home, r.shift, 64 * r.prefix + o);
    }
  }

  /** A node's range ends within the 64-bit range, or, at shift 60, past it at a multiple of 2^64. */
  lemma NodeEnd(r: Rec<Node>, index: nat)
    requires RecOk(r) && index < WORD && Covers(r, index)
    ensures First(r.shift, 64 * r.prefix + 64) <= WORD || First(r.shift, 64 * r.prefix + 64) == 4 * WORD
  {
    FirstUp(r.shift, r.prefix + 1);
    if r.shift == 60 {
      ShrTop(index);
      Pow60();
      assert Pow2(66) == 64 * Pow2(60);
    } else {
      StepUp(r.shift);
      BlockEnd(index, r.shift + 6);
    }
  }

  /** How the walk down of radix_tree_next_chunk ends: at a slot, at its restart label, or for good. */
  datatype Way = At | Again | End

  /** The walk stands at a slot that is no hole, on the way to `index`; nothing sought was passed. */
  ghost predicate Diving(t: Tree<Node>, M: Content<Node>, K: Marks, f: Flags, from: nat, index: nat, node: Node,
          offset: nat)
  {
    && f.tag < |K| && from <= index < WORD && Clear(Sought(M, K, f), from, index) && (f.contig ==> index == from)
    && node in t.nodes && RecOk(t.nodes[node]) && Covers(t.nodes[node], index) &&
      offset == Digit(index, t.nodes[node].shift)
    && f.tag < MAX_TAGS && !Hole(t.nodes[node].slots, t.nodes[node].tags, f, offset)
  }

  /** One level of the walk: into `node`, and over a hole if there is one. */
  method Level(root: Root, node: Node, index0: nat, f: Flags) returns (way: Way, index: nat, offset: nat)
    requires root.Ok() && !root.idr && node in root.t.nodes && RecOk(root.t.nodes[node]) && f.tag < MAX_TAGS
    requires index0 < WORD && Covers(root.t.nodes[node], index0)
    ensures way == At ==> Diving(root.t, root.M, root.K, f, index0, index, node, offset)
    ensures way == Again ==> !f.contig && index0 < index < WORD && Clear(Sought(root.M, root.K, f), index0, index)
    ensures way == End ==>
      if f.contig then index0 !in Sought(root.M, root.K, f) else Clear(Sought(root.M, root.K, f), index0, WORD)
  {
    assert node.View() == root.t.nodes[node];
    index, offset := index0, Digit(index0, root.At(node).shift);
    if Hole(root.At(node).slots, root.At(node).tags, f, offset) {
      if f.contig {
        HoleMeans(root.t, root.M, root.K, f, node, offset);
        UnderDown(index, node.shift, node.prefix);
        return End, index, offset;
      }
      offset, index := SkipHole(root, node, offset, index, f);
      if index == 0 {
        return End, index, offset;
      }
      if offset == 64 {
        return Again, index, offset;
      }
      FirstIn(node.shift, 64 * node.prefix + offset);
    }
    return At, index, offset;
  }

  /** The do loop of radix_tree_next_chunk. */
  method Dive(root: Root, top: Node, index0: nat, f: Flags) returns (way: Way, index: nat, node: Node, offset: nat)
    requires root.Ok() && !root.idr && top in root.t.nodes && f.tag < MAX_TAGS
    requires index0 < WORD && Covers(root.t.nodes[top], index0)
    ensures way == At ==>
      Diving(root.t, root.M, root.K, f, index0, index, node, offset) && root.t.nodes[node].shift == 0
    ensures way == Again ==> !f.contig && index0 < index < WORD && Clear(Sought(root.M, root.K, f), index0, index)
    ensures way == End ==>
      if f.contig then index0 !in Sought(root.M, root.K, f) else Clear(Sought(root.M, root.K, f), index0, WORD)
  {
    node, index := top, index0;
    while true
      invariant node in root.t.nodes && Covers(root.t.nodes[node], index) && index0 <= index < WORD
      invariant Clear(Sought(root.M, root.K, f), index0, index) && (f.contig ==> index == index0)
      decreases root.t.nodes[node].shift
    {
      assert RecOk(root.t.nodes[node]) && node.View() == root.t.nodes[node];
      way, index, offset := Level(root, node, index, f);
      if way != At {
        return;
      }
      NoHole(root.t, root.M, root.K, f, node, offset);
      if root.At(node).shift == 0 {
        return;
      }
      ChildCovers(root.t, node, index);
      node := root.At(node).slots[offset].node;
    }
  }

  lemma BeyondTop(t: Tree<Node>, M: Content<Node>, K: Marks, f: Flags, index: nat)
    requires TreeOk(t, M, K) && !t.idr && f.tag < MAX_TAGS && Shr(index, HeadShift(t)) > 0
    ensures Clear(Sought(M, K, f), index, WORD)
  {
    forall x | index <= x < WORD ensures x !in Sought(M, K, f) {
      ShrMono(index, x, HeadShift(t));
      if x in M { InRange(t, M, x); }
    }
  }

  lemma HeadSought(t: Tree<Node>, M: Content<Node>, K: Marks, f: Flags)
    requires TreeOk(t, M, K) && !t.idr && f.tag < MAX_TAGS && (f.tagged ==> f.tag in t.rootTags)
    ensures t.head.Data() ==> 0 in Sought(M, K, f)
    ensures t.head == Null ==> Sought(M, K, f) == iset{}
  {
    assert RootBitOk(t, K, f.tag);
    assert t.head == Null ==> forall x :: x !in Sought(M, K, f);
  }

  /** Where the iterator will look next: just past the current chunk, or nowhere after the last one. */
  ghost predicate Over(iter: Cursor)
    reads iter
  {
    iter.nextIndex == 0 && iter.index != 0
  }

  /** One past the chunk of index k, modulo 2^64. */
  ghost function ChunkEnd(node: Node?, k: nat): nat { if node == null then 1 else (64 * (k / 64) + 64) % WORD }

  /** The chunk the iterator describes, from its current slot on. */
  ghost predicate InChunk(root: Root, iter: Cursor, f: Flags, node: Node?, offset: nat)
    reads root, root.t.nodes.Keys, iter, node
  {
    && iter.index < WORD && iter.node == node && SlotFor(root.t, node, offset, iter.index) && f.tag < MAX_TAGS
    && iter.nextIndex == ChunkEnd(node, iter.index)
    && (f.tagged ==> if node == null then iter.tags == {0} else
          node in root.t.nodes && f.tag < |node.tags| && iter.tags == ShiftDown(node.tags[f.tag], offset))
  }

  /** radix_tree_next_chunk: the slot of the least index sought from iter.nextIndex on; with the
      CONTIG flag, of iter.nextIndex itself. */
  method NextChunk(root: Root, iter: Cursor, f: Flags) returns (found: bool, node: Node?, offset: nat)
    requires root.Ok() && !root.idr && f.tag < MAX_TAGS && iter.nextIndex < WORD
    modifies iter
    ensures found ==> old(iter.nextIndex) <= iter.index && iter.index in Sought(root.M, root.K, f)
    ensures found ==>
      InChunk(root, iter, f, node, offset) && Clear(Sought(root.M, root.K, f), old(iter.nextIndex), iter.index)
    ensures found && f.contig ==> iter.index == old(iter.nextIndex)
    ensures old(Over(iter)) ==> !found
    ensures !found ==> iter.index == old(iter.index) && iter.nextIndex == old(iter.nextIndex)
    ensures !found && !old(Over(iter)) ==>
      if f.contig then old(iter.nextIndex) !in Sought(root.M, root.K, f)
      else Clear(Sought(root.M, root.K, f), old(iter.nextIndex), WORD)
  {
    node, offset := null, 0;
    if f.tagged { RootTagMeaning(root.t, root.M, root.K, f.tag); }
    if f.tagged && f.tag !in root.rootTags {
      return false, null, 0;
    }
    var index := iter.nextIndex;
    if index == 0 && iter.index != 0 {
      return false, null, 0;
    }
    found, index, node, offset := FindSlot(root, index, f);
    if !found {
      return;
    }
    iter.index := index;
    iter.node := node;
    if node == null {
      iter.nextIndex, iter.tags := 1, {0};
    } else {
      assert node.View() == root.t.nodes[node] && RecOk(root.t.nodes[node]);
      iter.nextIndex := (64 * (index / 64) + 64) % WORD;
      if f.tagged {
        iter.tags := ShiftDown(root.At(node).tags[f.tag], offset);
      }
    }
  }

  /** From the label restart of radix_tree_next_chunk to the slot it finds. */
  method FindSlot(root: Root, index0: nat, f: Flags) returns (found: bool, index: nat, node: Node?, offset: nat)
    requires root.Ok() && !root.idr && f.tag < MAX_TAGS && index0 < WORD && (f.tagged ==> f.tag in root.rootTags)
    ensures found ==>
      index0 <= index < WORD && index in Sought(root.M, root.K, f) && SlotFor(root.t, node, offset, index)
    ensures found ==> Clear(Sought(root.M, root.K, f), index0, index) && (f.contig ==> index == index0)
    ensures !found ==>
      if f.contig then index0 !in Sought(root.M, root.K, f) else Clear(Sought(root.M, root.K, f), index0, WORD)
  {
    HeadSought(root.t, root.M, root.K, f);
    index, node, offset := index0, null, 0;
    while true
      invariant index0 <= index < WORD && Clear(Sought(root.M, root.K, f), index0, index)
      invariant f.contig ==> index == index0
      decreases WORD - index
    {
      var child, s, maxindex := root.LoadRoot();
      MaxIndexIs(root.t, index);
      if index > maxindex {
        BeyondTop(root.t, root.M, root.K, f, index);
        return false, index, null, 0;
      }
      if child == Null {
        return false, index, null, 0;
      }
      if !child.Internal? {
        return true, index, null, 0;
      }
      var way;
      way, index, node, offset := Dive(root, child.node, index, f);
      if way == End {
        return false, index, null, 0;
      }
      if way == At {
        NoHole(root.t, root.M, root.K, f, node, offset);
        LeafKey(root.t.nodes[node], index);
        return true, index, node, offset;
      }
    }
  }

  /** One past the last index of the current chunk. */
  ghost function Bound(iter: Cursor): nat
    reads iter
  {
    if iter.nextIndex == 0 then WORD else iter.nextIndex
  }

  /** A leaf slot in the chunk holds something exactly when its index is present, and has its bit
      exactly when it is tagged. */
  lemma LeafSought(t: Tree<Node>, M: Content<Node>, K: Marks, f: Flags, n: Node, i: nat)
    requires TreeOk(t, M, K) && !t.idr && n in t.nodes && i < 64 && f.tag < MAX_TAGS && RecOk(t.nodes[n]) &&
      t.nodes[n].shift == 0
    ensures 64 * t.nodes[n].prefix + i in Sought(M, K, f) <==> !Hole(t.nodes[n].slots, t.nodes[n].tags, f, i)
  {
    assert LeafOk(t.nodes[n], M, i) && BitOk(t, K, f.tag, n, i);
  }

  lemma ChunkFacts(root: Root, iter: Cursor, f: Flags, node: Node, offset: nat)
    requires root.Ok() && InChunk(root, iter, f, node, offset)
    ensures RecOk(root.t.nodes[node]) && node.View() == root.t.nodes[node]
    ensures iter.index == 64 * node.prefix + offset && offset < 64 && Bound(iter) == 64 * node.prefix + 64
    ensures iter.nextIndex == (64 * node.prefix + 64) % WORD
  {
    LeafKey(root.t.nodes[node], iter.index);
    assert node.View() == root.t.nodes[node];
    assert 64 * node.prefix + 64 <= WORD;
  }

  /** radix_tree_next_slot without RADIX_TREE_ITER_TAGGED. A chunk that radix_tree_iter_delete has cut
      short is left without touching its node. */
  method NextSlot(root: Root, iter: Cursor, f: Flags, node: Node?, offset0: nat) returns (found: bool, offset: nat)
    requires root.Ok() && !root.idr && !f.tagged && f.tag < MAX_TAGS && iter.index < WORD && iter.nextIndex < WORD
    requires iter.index != iter.nextIndex ==> InChunk(root, iter, f, node, offset0)
    modifies iter
    ensures found ==> InChunk(root, iter, f, node, offset) && iter.nextIndex == old(iter.nextIndex)
    ensures found ==> old(iter.index) < iter.index && iter.index in Sought(root.M, root.K, f)
    ensures found ==> Clear(Sought(root.M, root.K, f), old(iter.index) + 1, iter.index)
    ensures found && f.contig ==> iter.index == old(iter.index) + 1
    ensures !found && old(iter.index == iter.nextIndex) ==>
      iter.index == old(iter.index) && iter.nextIndex == old(iter.nextIndex)
    ensures iter.nextIndex < WORD && (!found && !f.contig ==> iter.nextIndex == old(iter.nextIndex))
    ensures !found && !f.contig && !old(iter.index == iter.nextIndex) ==>
      Clear(Sought(root.M, root.K, f), old(iter.index) + 1, Bound(iter))
    ensures !found && f.contig && !old(iter.index == iter.nextIndex) ==>
      if iter.nextIndex == 0 then old(iter.index) + 1 !in Sought(root.M, root.K, f)
        else iter.nextIndex == old(iter.index) + 1
    ensures !found && !old(iter.index == iter.nextIndex) && iter.nextIndex == 0 ==> Over(iter)
  {
    offset := offset0;
    var count := (iter.nextIndex + WORD - iter.index) % WORD - 1;
    if node == null || iter.index == iter.nextIndex {
      return false, offset;
    }
    ChunkFacts(root, iter, f, node, offset);
    assert count == 63 - offset;
    assert WORD !in root.M;
    while count > 0
      invariant count == 63 - offset && offset0 <= offset < 64
      invariant iter.index == 64 * node.prefix + offset && iter.nextIndex == old(iter.nextIndex)
      invariant iter.node == node && iter.tags == old(iter.tags)
      invariant Clear(Sought(root.M, root.K, f), old(iter.index) + 1, iter.index + 1)
      invariant f.contig ==> offset == offset0
    {
      offset := offset + 1;
      iter.index := iter.index + 1;
      LeafSought(root.t, root.M, root.K, f, node, offset);
      if root.At(node).slots[offset] != Null {
        LeafKey(root.t.nodes[node], iter.index);
        return true, offset;
      }
      if f.contig {
        iter.nextIndex := 0;
        return false, offset;
      }
      count := count - 1;
    }
    return false, offset;
  }

  /** radix_tree_next_slot with RADIX_TREE_ITER_TAGGED: it eats the tags of the chunk. */
  method NextTagged(root: Root, iter: Cursor, f: Flags, node: Node?, offset0: nat) returns (found: bool, offset: nat)
    requires root.Ok() && !root.idr && f.tagged && !f.contig && InChunk(root, iter, f, node, offset0)
    modifies iter
    ensures iter.nextIndex == old(iter.nextIndex)
    ensures found ==> InChunk(root, iter, f, node, offset)
    ensures found ==> old(iter.index) < iter.index && iter.index in Sought(root.M, root.K, f)
    ensures found ==> Clear(Sought(root.M, root.K, f), old(iter.index) + 1, iter.index)
    ensures !found ==>
      iter.index == old(iter.index) && Clear(Sought(root.M, root.K, f), old(iter.index) + 1, Bound(iter))
    ensures !found && iter.nextIndex == 0 ==> Over(iter)
  {
    offset := offset0;
    var tags := ShiftDown(iter.tags, 1);
    if tags == {} {
      if node != null { ChunkUntagged(root, iter, f, node, offset); }
      iter.tags := tags;
      return false, offset;
    }
    ChunkTagged(root, iter, f, node, offset);
    var o, rest := SkipClear(tags);
    Advance(root, iter, f, node, offset, o + 1, rest);
    return true, offset + (o + 1);
  }

  /** The clear bits before the lowest set bit go, unless there are none. */
  method SkipClear(tags: set<nat>) returns (o: nat, rest: set<nat>)
    requires (forall i :: i in tags ==> i < 64) && tags != {}
    ensures o == NextBit(tags, 0) && rest == ShiftDown(tags, o)
  {
    o, rest := 0, tags;
    if 0 in tags {
      LowBit(tags);
    } else {
      o := NextBit(tags, 0);
      rest := ShiftDown(tags, o);
    }
  }

  /** The iterator moves on within its chunk. */
  method Advance(root: Root, iter: Cursor, f: Flags, node: Node?, ghost offset: nat, step: nat, tags: set<nat>)
    requires root.Ok() && !root.idr && f.tagged && InChunk(root, iter, f, node, offset) && node != null && step > 0
    requires var o := NextBit(ShiftDown(iter.tags, 1), 0);
      && step == o + 1 && tags == ShiftDown(ShiftDown(iter.tags, 1), o)
      && NextIsAt(root, iter, f, node, offset, ShiftDown(iter.tags, 1), o)
    modifies iter
    ensures iter.nextIndex == old(iter.nextIndex) && InChunk(root, iter, f, node, offset + step)
    ensures old(iter.index) < iter.index && iter.index in Sought(root.M, root.K, f)
    ensures Clear(Sought(root.M, root.K, f), old(iter.index) + 1, iter.index)
  {
    iter.index, iter.tags := iter.index + step, tags;
  }

  /** The next tagged index of the chunk lies o + 1 further on, o being the lowest set bit. */
  ghost predicate NextIsAt(root: Root, iter: Cursor, f: Flags, node: Node, offset: nat, tags: set<nat>, o: nat)
    requires f.tag < |root.K|
    reads root, root.t.nodes.Keys, iter, node
  {
    var k, X := iter.index + 1 + o, Sought(root.M, root.K, f);
    && Clear(X, iter.index + 1, k) && k in X && k < WORD && k / 64 == iter.index / 64
    && SlotFor(root.t, node, offset + 1 + o, k)
    && f.tag < |node.tags| && ShiftDown(tags, o) == ShiftDown(node.tags[f.tag], offset + 1 + o)
  }

  /** What the tags of a chunk say about the indices after the current one: none is tagged ... */
  lemma ChunkUntagged(root: Root, iter: Cursor, f: Flags, node: Node, offset: nat)
    requires root.Ok() && !root.idr && f.tagged && InChunk(root, iter, f, node, offset)
    ensures iter.nextIndex == 0 ==> iter.index != 0
    ensures ShiftDown(iter.tags, 1) == {} ==> Clear(Sought(root.M, root.K, f), iter.index + 1, Bound(iter))
  {
    ChunkFacts(root, iter, f, node, offset);
    ChunkBits(root, f, node);
    if ShiftDown(iter.tags, 1) == {} { TagsOver(node.tags[f.tag], Sought(root.M, root.K, f), node.prefix, offset); }
  }

  /** ... or the one of the lowest bit is the next. */
  lemma ChunkTagged(root: Root, iter: Cursor, f: Flags, node: Node, offset: nat)
    requires root.Ok() && !root.idr && f.tagged && InChunk(root, iter, f, node, offset) && ShiftDown(iter.tags, 1) != {}
    ensures NextIsAt(root, iter, f, node, offset, ShiftDown(iter.tags, 1), NextBit(ShiftDown(iter.tags, 1), 0))
  {
    ChunkFacts(root, iter, f, node, offset);
    ChunkBits(root, f, node);
    TagsAhead(node.tags[f.tag], Sought(root.M, root.K, f), node.prefix, offset);
    var o := NextBit(ShiftDown(iter.tags, 1), 0);
    InLeaf(root.t, node, offset, iter.index);
    InLeaf(root.t, node, offset + 1 + o, iter.index + 1 + o);
  }

  lemma InLeaf(t: Tree<Node>, node: Node, offset: nat, k: nat)
    requires node in t.nodes && t.nodes[node].shift == 0 && offset < 64 && k == 64 * t.nodes[node].prefix + offset
    ensures SlotFor(t, node, offset, k) && k / 64 == t.nodes[node].prefix
  {
    LeafKey(t.nodes[node], k);
  }

  lemma LowBit(s: set<nat>)
    requires (forall i :: i in s ==> i < 64) && 0 in s
    ensures NextBit(s, 0) == 0 && ShiftDown(s, 0) == s
  {
    forall i: nat ensures i in ShiftDown(s, 0) <==> i in s { ShiftedBit(s, 0, i); }
  }

  /** The bits of a leaf say which of its indices are in X. */
  ghost predicate BitsAre(bits: set<nat>, X: iset<nat>, p: nat) {
    && (forall i :: i in bits ==> i < 64)
    && forall i {:trigger i in bits} :: 0 <= i < 64 ==> (i in bits <==> 64 * p + i in X)
  }

  /** Shifting the tags of a leaf, of which slot `offset` is the current one, by one more leaves nothing ... */
  lemma TagsOver(bits: set<nat>, X: iset<nat>, p: nat, offset: nat)
    requires offset < 64 && BitsAre(bits, X, p) && ShiftDown(ShiftDown(bits, offset), 1) == {}
    ensures Clear(X, 64 * p + offset + 1, 64 * p + 64)
  {
    ShiftAgain(bits, offset, 1);
    NoneAhead(bits, offset + 1);
    ClearBits(bits, X, p, offset + 1, 64);
  }

  /** ... or leads to the next tagged slot when they are shifted by their lowest bit. */
  lemma TagsAhead(bits: set<nat>, X: iset<nat>, p: nat, offset: nat)
    requires offset < 64 && BitsAre(bits, X, p) && ShiftDown(ShiftDown(bits, offset), 1) != {}
    ensures var tags := ShiftDown(ShiftDown(bits, offset), 1);
      var o := NextBit(tags, 0);
      && offset + 1 + o < 64 && 64 * p + offset + 1 + o in X
      && Clear(X, 64 * p + offset + 1, 64 * p + offset + 1 + o)
      && ShiftDown(tags, o) == ShiftDown(bits, offset + 1 + o)
  {
    ShiftAgain(bits, offset, 1);
    var o := NextBit(ShiftDown(bits, offset + 1), 0);
    TagScan(bits, offset + 1);
    ClearBits(bits, X, p, offset + 1, offset + 1 + o);
    ShiftAgain(bits, offset + 1, o);
  }

  lemma ClearBits(bits: set<nat>, X: iset<nat>, p: nat, a: nat, b: nat)
    requires a <= b <= 64 && BitsAre(bits, X, p) && forall i :: a <= i < b ==> i !in bits
    ensures Clear(X, 64 * p + a, 64 * p + b)
  {
    forall x | 64 * p + a <= x < 64 * p + b ensures x !in X { assert x - 64 * p !in bits; }
  }

  lemma ChunkBits(root: Root, f: Flags, node: Node)
    requires root.Ok() && !root.idr && f.tagged && f.tag < MAX_TAGS && node in root.t.nodes &&
      root.t.nodes[node].shift == 0
    ensures |node.tags| == MAX_TAGS && BitsAre(node.tags[f.tag], Sought(root.M, root.K, f), node.prefix)
  {
    assert RecOk(root.t.nodes[node]) && node.View() == root.t.nodes[node];
    forall i | 0 <= i < 64 ensures i in node.tags[f.tag] <==> 64 * node.prefix + i in Sought(root.M, root.K, f) {
      LeafSought(root.t, root.M, root.K, f, node, i);
    }
  }

  // ---------------------------------------------------------------- whole iterations

  /** `keys` lists, in ascending order and once each, exactly the indices sought from `a` to `b`. */
  ghost predicate Lists(X: iset<nat>, a: nat, b: nat, keys: seq<nat>) {
    && (forall i, j :: 0 <= i < j < |keys| ==> keys[i] < keys[j])
    && (forall x :: x in keys ==> a <= x < b)
    && (forall x :: a <= x < b ==> (x in X <==> x in keys))
  }

  lemma ListsClear(X: iset<nat>, a: nat, b: nat, c: nat, keys: seq<nat>)
    requires Lists(X, a, b, keys) && Clear(X, b, c) && b <= c
    ensures Lists(X, a, c, keys)
  {
  }

  lemma ListsNext(X: iset<nat>, a: nat, k: nat, keys: seq<nat>)
    requires Lists(X, a, k, keys) && k in X && a <= k
    ensures Lists(X, a, k + 1, keys + [k])
  {
    assert forall i :: 0 <= i < |keys| ==> keys[i] in keys;
    forall x | a <= x < k + 1 ensures x in X <==> x in keys + [k] {
      assert x in keys + [k] <==> x in keys || x == k;
    }
  }

  /** `results` are the entries of `keys`. */
  ghost predicate Fetched(M: Content<Node>, keys: seq<nat>, results: seq<Entry<Node>>) {
    |results| == |keys| && forall i :: 0 <= i < |keys| ==> keys[i] in M && results[i] == M[keys[i]]
  }

  lemma Listed(X: iset<nat>, M: Content<Node>, a: nat, b: nat, k: nat, keys: seq<nat>, results: seq<Entry<Node>>)
    requires Lists(X, a, b, keys) && Clear(X, b, k) && k in X && a <= b <= k && Fetched(M, keys, results) && k in M
    ensures Lists(X, a, k + 1, keys + [k]) && Fetched(M, keys + [k], results + [M[k]])
  {
    ListsClear(X, a, b, k, keys);
    ListsNext(X, a, k, keys);
  }

  /** The position of a radix_tree_for_each loop: at a slot, or about to look for the next chunk. */
  ghost predicate LoopAt(root: Root, iter: Cursor, f: Flags, have: bool, node: Node?, offset: nat, pos: nat)
    requires f.tag < |root.K|
    reads root, root.t.nodes.Keys, iter, node
  {
    if have then InChunk(root, iter, f, node, offset) && iter.index == pos && pos in Sought(root.M, root.K, f)
    else iter.nextIndex < WORD && pos == if Over(iter) then WORD else iter.nextIndex
  }

  /** The increment of a radix_tree_for_each loop. */
  method NextOf(root: Root, iter: Cursor, f: Flags, node: Node?, offset0: nat)
    returns (have: bool, offset: nat, ghost pos: nat)
    requires root.Ok() && !root.idr && !f.contig && InChunk(root, iter, f, node, offset0)
    modifies iter
    ensures LoopAt(root, iter, f, have, node, offset, pos) && old(iter.index) < pos <= WORD
    ensures Clear(Sought(root.M, root.K, f), old(iter.index) + 1, pos)
  {
    if node != null { ChunkFacts(root, iter, f, node, offset0); }
    ghost var bound := Bound(iter);
    if f.tagged {
      have, offset := NextTagged(root, iter, f, node, offset0);
    } else {
      have, offset := NextSlot(root, iter, f, node, offset0);
    }
    pos := if have then iter.index else bound;
  }

  /** The test of a radix_tree_for_each loop: the next chunk if the current one has no slot left. */
  method Settle(root: Root, iter: Cursor, f: Flags, have0: bool, node0: Node?, offset0: nat, ghost pos0: nat)
    returns (have: bool, node: Node?, offset: nat, ghost pos: nat)
    requires root.Ok() && !root.idr && f.tag < MAX_TAGS && !f.contig &&
      LoopAt(root, iter, f, have0, node0, offset0, pos0)
    requires pos0 <= WORD
    modifies iter
    ensures pos0 <= pos <= WORD && Clear(Sought(root.M, root.K, f), pos0, pos)
    ensures if have then LoopAt(root, iter, f, true, node, offset, pos) && pos < WORD else pos == WORD
  {
    have, node, offset, pos := have0, node0, offset0, pos0;
    if !have {
      have, node, offset := NextChunk(root, iter, f);
      pos := if have then iter.index else WORD;
    }
  }

  /** The entry a radix_tree_for_each loop stands at. */
  method SlotEntry(root: Root, iter: Cursor, f: Flags, node: Node?, offset: nat) returns (entry: Entry<Node>)
    requires root.Ok() && !root.idr && InChunk(root, iter, f, node, offset) && iter.index in Sought(root.M, root.K, f)
    ensures iter.index in root.M && entry == root.M[iter.index] && entry.Data()
  {
    if node == null {
      entry := root.head;
    } else {
      ChunkFacts(root, iter, f, node, offset);
      entry := root.At(node).slots[offset];
      assert LeafOk(root.t.nodes[node], root.M, offset);
    }
  }

  /** The test of a gang lookup's loop, and the load of its body. */
  method FetchNext(root: Root, iter: Cursor, f: Flags, have0: bool, node0: Node?, offset0: nat, ghost first: nat,
          ghost pos0: nat, ghost keys: seq<nat>, ghost results: seq<Entry<Node>>)
    returns (have: bool, node: Node?, offset: nat, entry: Entry<Node>, ghost pos: nat)
    requires root.Ok() && !root.idr && f.tag < MAX_TAGS && !f.contig
    requires LoopAt(root, iter, f, have0, node0, offset0, pos0) && first <= pos0 <= WORD
    requires Lists(Sought(root.M, root.K, f), first, pos0, keys) && Fetched(root.M, keys, results)
    modifies iter
    ensures !have ==> Lists(Sought(root.M, root.K, f), first, WORD, keys)
    ensures have ==> pos0 <= pos < WORD && LoopAt(root, iter, f, true, node, offset, pos)
    ensures have ==> Lists(Sought(root.M, root.K, f), first, pos + 1, keys + [pos])
    ensures have ==> Fetched(root.M, keys + [pos], results + [entry])
  {
    have, node, offset, pos := Settle(root, iter, f, have0, node0, offset0, pos0);
    entry := Null;
    if have {
      entry := SlotEntry(root, iter, f, node, offset);
      Listed(Sought(root.M, root.K, f), root.M, first, pos0, pos, keys, results);
    } else {
      ListsClear(Sought(root.M, root.K, f), first, pos0, pos, keys);
    }
  }

  /** The increment of a gang lookup's loop. */
  method GoOn(root: Root, iter: Cursor, f: Flags, node: Node?, offset0: nat, ghost first: nat, ghost pos0: nat,
          ghost keys: seq<nat>)
    returns (have: bool, offset: nat, ghost pos: nat)
    requires root.Ok() && !root.idr && f.tag < MAX_TAGS && !f.contig
    requires LoopAt(root, iter, f, true, node, offset0, pos0) && first <= pos0 < WORD
    requires Lists(Sought(root.M, root.K, f), first, pos0 + 1, keys)
    modifies iter
    ensures pos0 < pos <= WORD && LoopAt(root, iter, f, have, node, offset, pos)
    ensures Lists(Sought(root.M, root.K, f), first, pos, keys)
  {
    have, offset, pos := NextOf(root, iter, f, node, offset0);
    ListsClear(Sought(root.M, root.K, f), first, pos0 + 1, pos, keys);
  }

  /** radix_tree_gang_lookup and radix_tree_gang_lookup_tag: the entries of the first `max` indices
      sought from `first` on. `keys` are those indices; fewer than `max` means there are no more. */
  method GangLookup(root: Root, first: nat, max: nat, f: Flags)
    returns (results: seq<Entry<Node>>, ghost keys: seq<nat>)
    requires root.Ok() && !root.idr && f.tag < MAX_TAGS && !f.contig && first < WORD
    ensures |results| <= max && Fetched(root.M, keys, results)
    ensures |results| < max ==> Lists(Sought(root.M, root.K, f), first, WORD, keys)
    ensures |results| == max > 0 ==> Lists(Sought(root.M, root.K, f), first, keys[max - 1] + 1, keys)
  {
    results, keys := [], [];
    if max == 0 {
      return;
    }
    var iter := new Cursor(first);
    var have, node: Node?, offset := false, null, 0;
    ghost var pos: nat := first;
    while true
      invariant fresh(iter) && LoopAt(root, iter, f, have, node, offset, pos)
      invariant first <= pos <= WORD && Lists(Sought(root.M, root.K, f), first, pos, keys)
      invariant |results| < max && Fetched(root.M, keys, results)
      modifies iter
      decreases WORD - pos
    {
      var entry;
      have, node, offset, entry, pos := FetchNext(root, iter, f, have, node, offset, first, pos, keys, results);
      if !have {
        return;
      }
      results, keys := results + [entry], keys + [pos];
      if |results| == max {
        return;
      }
      have, offset, pos := GoOn(root, iter, f, node, offset, first, pos, keys);
    }
  }

  /** No index of the block of k is present, except possibly index 0. */
  ghost predicate BlockGone(M: Content<Node>, k: nat) {
    forall j :: 64 * (k / 64) <= j < 64 * (k / 64) + 64 && j in M ==> j == 0
  }

  lemma FreedClear(t: Tree<Node>, t': Tree<Node>, M': Content<Node>, node: Node, k: nat)
    requires Shape(t) && BaseOk(t', M') && node in t.nodes && node !in t'.nodes && t.nodes[node].shift == 0 &&
      Covers(t.nodes[node], k)
    requires forall n :: n in t'.nodes ==>
      n in t.nodes && t'.nodes[n].shift == t.nodes[n].shift && t'.nodes[n].prefix == t.nodes[n].prefix
    ensures BlockGone(M', k)
  {
    LeafKey(t.nodes[node], k);
    forall j | 64 * (k / 64) <= j < 64 * (k / 64) + 64 && j in M' ensures j == 0 {
      LeafKey(t.nodes[node], j);
      FreedLeaf(t, t', M', node, j);
    }
  }

  /** A leaf that stays still has an entry. */
  lemma StaysBusy(t: Tree<Node>, M: Content<Node>, node: Node, k: nat)
    requires BaseOk(t, M) && node in t.nodes && t.nodes[node].count > 0
    requires t.nodes[node].shift == 0 && Covers(t.nodes[node], k) && k >= 64
    ensures !BlockGone(M, k)
  {
    var r := t.nodes[node];
    assert CountOk(r, M);
    var i :| i in Occ(r, M);
    assert Present(M, r.prefix, i);
    LeafKey(r, k);
    assert 64 * (k / 64) <= 64 * r.prefix + i < 64 * (k / 64) + 64;
  }

  /** radix_tree_iter_delete. If the node is freed, the iterator leaves it at once. When that node
      held the last 64 indices, nextIndex is 0 and so is now index: the state radix_tree_iter_init
      sets for a walk from 0, so the walk would start over. */
  method IterDelete(root: Root, iter: Cursor, f: Flags, node: Node?, offset: nat)
    requires root.Ok() && !root.idr && !f.tagged && InChunk(root, iter, f, node, offset) && iter.index in root.M
    modifies root, root.t.nodes.Keys, iter
    ensures root.Ok() && root.M == old(root.M) - {old(iter.index)} && iter.nextIndex == old(iter.nextIndex)
    ensures Kept(old(root.freed), old(root.t), root.freed, root.t)
    ensures if iter.index == iter.nextIndex then node in root.freed
            else iter.index == old(iter.index) && InChunk(root, iter, f, node, offset)
    ensures iter.index == iter.nextIndex ==> Clear(Sought(root.M, root.K, f), old(iter.index) + 1, Bound(iter))
    ensures old(iter.index) >= 64 ==> (iter.index == iter.nextIndex <==> BlockGone(root.M, old(iter.index)))
    ensures iter.index == iter.nextIndex == 0 <==> old(iter.index) >= WORD - 64 && BlockGone(root.M, old(iter.index))
  {
    if node != null { ChunkFacts(root, iter, f, node, offset); }
    assert iter.index != iter.nextIndex;
    var deleted := Drop(root, node, offset, iter.index);
    if deleted {
      iter.index := iter.nextIndex;
    }
  }

  /** What deletions do to the nodes: none comes, those that go have been freed, and a minimal tree stays minimal. */
  ghost predicate Kept(freed0: set<Node>, t0: Tree<Node>, freed: set<Node>, t: Tree<Node>) {
    && t.nodes.Keys <= t0.nodes.Keys && freed + t.nodes.Keys == freed0 + t0.nodes.Keys
    && (Minimal(t0) ==> Minimal(t))
  }

  /** __radix_tree_delete at an iterator's slot: the slot stays where it is, or its leaf holds no
      later entry. */
  method Drop(root: Root, node: Node?, offset: nat, ghost k: nat) returns (deleted: bool)
    requires root.Ok() && !root.idr && SlotFor(root.t, node, offset, k) && k in root.M
    modifies root, root.t.nodes.Keys
    ensures root.Ok() && root.M == old(root.M) - {k}
    ensures Kept(old(root.freed), old(root.t), root.freed, root.t)
    ensures deleted ==> node != null && node !in root.t.nodes && BlockGone(root.M, k)
    ensures !deleted ==> SlotFor(root.t, node, offset, k) && (k >= 64 ==> !BlockGone(root.M, k))
  {
    ghost var t := root.t;
    Places(root);
    deleted := root.DeleteAt(node, offset, k);
    Places(root);
    if deleted { FreedClear(t, root.t, root.M, node, k); } else if k >= 64 { StaysBusy(root.t, root.M, node, k); }
  }

  /** A leaf that was freed leaves no entry behind, except one at index 0 moved into the root. */
  lemma FreedLeaf(t: Tree<Node>, t': Tree<Node>, M': Content<Node>, node: Node, j: nat)
    requires Shape(t) && BaseOk(t', M') && node in t.nodes && node !in t'.nodes && t.nodes[node].shift == 0
    requires forall n :: n in t'.nodes ==>
      n in t.nodes && t'.nodes[n].shift == t.nodes[n].shift && t'.nodes[n].prefix == t.nodes[n].prefix
    requires j in M' && Covers(t.nodes[node], j)
    ensures j == 0
  {
    if t'.head.Internal? {
      var leaf := LeafOf(t', M', t'.head.node, j);
      Unique(t, leaf, node);
    }
  }

  /** Deleting index k has emptied the block of the last 64 indices. */
  ghost predicate LastBlockGone(M: Content<Node>, k: nat) { k >= WORD - 64 && forall j :: j in M ==> j < WORD - 64 }

  lemma LastBlock(M: Content<Node>, k: nat)
    requires k < WORD && forall j :: j in M ==> j < WORD
    ensures LastBlockGone(M, k) <==> k >= WORD - 64 && BlockGone(M, k)
  {
    assert k >= WORD - 64 ==> 64 * (k / 64) == WORD - 64;
  }

  /** The increment of the loop after a deletion. When the last block has just been emptied the walk starts over. */
  method DeleteAndNext(root: Root, iter: Cursor, f: Flags, node: Node?, offset0: nat)
    returns (have: bool, offset: nat, ghost pos: nat, ghost over: bool)
    requires root.Ok() && !root.idr && !f.tagged && !f.contig && InChunk(root, iter, f, node, offset0)
    requires iter.index in root.M
    modifies root, root.t.nodes.Keys, iter
    ensures root.Ok() && root.M == old(root.M) - {old(iter.index)}
    ensures Kept(old(root.freed), old(root.t), root.freed, root.t)
    ensures over <==> LastBlockGone(root.M, old(iter.index))
    ensures LoopAt(root, iter, f, have, node, offset, if over then 0 else pos) && old(iter.index) < pos <= WORD
    ensures Clear(KeySet(root.M), old(iter.index) + 1, pos) && (over ==> pos == WORD)
  {
    if node != null { ChunkFacts(root, iter, f, node, offset0); }
    ghost var k: nat := iter.index;
    IterDelete(root, iter, f, node, offset0);
    LastBlock(root.M, k);
    over := iter.index == 0 && iter.nextIndex == 0;
    if iter.index == iter.nextIndex {
      have, offset := NextSlot(root, iter, f, node, offset0);
      pos := if over then WORD else Bound(iter);
    } else {
      have, offset, pos := NextOf(root, iter, f, node, offset0);
    }
  }

  /** What is left of M0 once the chosen ones among `visited` have been deleted. */
  ghost predicate Left(M0: Content<Node>, M: Content<Node>, visited: seq<nat>, chosen: set<nat>) {
    && (forall k :: k in M <==> k in M0 && !(k in visited && k in chosen))
    && (forall k :: k in M ==> M[k] == M0[k])
  }

  /** Moving past entry k, kept or deleted, and then over indices that are absent. */
  lemma LeftNext(M0: Content<Node>, M: Content<Node>, M': Content<Node>, visited: seq<nat>, chosen: set<nat>, a: nat,
          k: nat, c: nat)
    requires Left(M0, M, visited, chosen) && Lists(KeySet(M0), a, k, visited) && a <= k < c && k in M
    requires M' == if k in chosen then M - {k} else M
    requires Clear(KeySet(M'), k + 1, c)
    ensures Left(M0, M', visited + [k], chosen) && Lists(KeySet(M0), a, c, visited + [k])
  {
    forall j | j in M0
      ensures j in visited + [k] && j in chosen <==> (j in visited && j in chosen) || (j == k && k in chosen) { }
    ListsNext(KeySet(M0), a, k, visited);
    LeftClear(M0, M', visited + [k], chosen, k + 1, c);
    ListsClear(KeySet(M0), a, k + 1, c, visited + [k]);
  }

  lemma LeftClear(M0: Content<Node>, M: Content<Node>, visited: seq<nat>, chosen: set<nat>, b: nat, c: nat)
    requires Left(M0, M, visited, chosen) && (forall x :: x in visited ==> x < b) && Clear(KeySet(M), b, c)
    ensures Clear(KeySet(M0), b, c)
  {
    forall x | b <= x < c ensures x !in M0 { assert x !in KeySet(M); }
  }

  /** The body and the increment of the loop. */
  method VisitOne(root: Root, iter: Cursor, f: Flags, node: Node?, offset0: nat, chosen: set<nat>)
    returns (have: bool, offset: nat, ghost pos: nat, ghost over: bool)
    requires root.Ok() && !root.idr && !f.tagged && !f.contig && InChunk(root, iter, f, node, offset0)
    requires iter.index in root.M
    modifies root, root.t.nodes.Keys, iter
    ensures root.Ok()
    ensures Kept(old(root.freed), old(root.t), root.freed, root.t)
    ensures root.M == if old(iter.index) in chosen then old(root.M) - {old(iter.index)} else old(root.M)
    ensures over <==> old(iter.index) in chosen && LastBlockGone(root.M, old(iter.index))
    ensures LoopAt(root, iter, f, have, node, offset, if over then 0 else pos) && old(iter.index) < pos <= WORD
    ensures Clear(KeySet(root.M), old(iter.index) + 1, pos) && (over ==> pos == WORD)
  {
    over := false;
    if iter.index in chosen {
      have, offset, pos, over := DeleteAndNext(root, iter, f, node, offset0);
    } else {
      have, offset, pos := NextOf(root, iter, f, node, offset0);
    }
  }

  /** A walk from `start` that deletes `chosen` starts over: it empties the block of the last 64 indices. */
  ghost predicate StartsOver(M: Content<Node>, start: nat, chosen: set<nat>) {
    && (exists k :: k in M && k >= WORD - 64)
    && forall k :: k in M && k >= WORD - 64 ==> k >= start && k in chosen
  }

  /** The first round: where it stands, and that it has yet to meet an entry of the last block if it is to start
      over. */
  ghost predicate FirstRound(M0: Content<Node>, M: Content<Node>, start: nat, chosen: set<nat>, pos: nat,
          visited: seq<nat>)
  {
    && Lists(KeySet(M0), start, pos, visited) && Left(M0, M, visited, chosen)
    && (StartsOver(M0, start, chosen) ==> exists k :: k in M && k >= WORD - 64)
  }

  /** The second round: the first one is complete, and there is no last block to empty. */
  ghost predicate SecondRound(M0: Content<Node>, M1: Content<Node>, M: Content<Node>, start: nat, chosen: set<nat>,
          pos: nat, first: seq<nat>, visited: seq<nat>)
  {
    && StartsOver(M0, start, chosen) && Lists(KeySet(M0), start, WORD, first) && Left(M0, M1, first, chosen)
    && Lists(KeySet(M1), 0, pos, visited) && Left(M1, M, visited, chosen)
    && forall k :: k in M1 ==> k < WORD - 64
  }

  lemma FirstMoves(M0: Content<Node>, M: Content<Node>, M': Content<Node>, start: nat, chosen: set<nat>, k: nat, c: nat,
          visited: seq<nat>)
    requires FirstRound(M0, M, start, chosen, k, visited) && start <= k < c <= WORD && k in M
    requires M' == if k in chosen then M - {k} else M
    requires Clear(KeySet(M'), k + 1, c)
    ensures Lists(KeySet(M0), start, c, visited + [k]) && Left(M0, M', visited + [k], chosen)
    ensures if k in chosen && LastBlockGone(M', k) then StartsOver(M0, start, chosen)
            else FirstRound(M0, M', start, chosen, c, visited + [k])
  {
    LeftNext(M0, M, M', visited, chosen, start, k, c);
    if k in chosen && LastBlockGone(M', k) {
      assert k in M0;
      forall j | j in M0 && j >= WORD - 64 ensures j >= start && j in chosen { assert j !in M'; }
    } else if StartsOver(M0, start, chosen) {
      var j :| j in M && j >= WORD - 64;
      if j == k && k in chosen { assert k >= WORD - 64; } else { assert j in M'; }
    }
  }

  /** What a walk that deletes visits and leaves: M1 is left of M0 after the first round, M at the end. */
  ghost predicate Rounds(M0: Content<Node>, M: Content<Node>, start: nat, chosen: set<nat>, first: seq<nat>,
          second: seq<nat>, M1: Content<Node>)
  {
    && Lists(KeySet(M0), start, WORD, first) && Left(M0, M1, first, chosen)
    && if StartsOver(M0, start, chosen) then Lists(KeySet(M1), 0, WORD, second) && Left(M1, M, second, chosen)
       else second == [] && M == M1
  }

  /** A walk over the present entries from `start` on that deletes those in `chosen` as it meets them: `first` lists
      every entry exactly once, ascending, and exactly the chosen ones go. If the last block gets emptied,
      radix_tree_iter_delete sends the walk back to index 0 for a second round over what is left. */
  method DeleteChosen(root: Root, start: nat, chosen: set<nat>)
    returns (ghost first: seq<nat>, ghost second: seq<nat>, ghost M1: Content<Node>)
    requires root.Ok() && !root.idr && start < WORD
    modifies root, root.t.nodes.Keys
    ensures root.Ok() && Kept(old(root.freed), old(root.t), root.freed, root.t)
    ensures Rounds(old(root.M), root.M, start, chosen, first, second, M1)
  {
    var iter := new Cursor(start);
    var f := Flags(false, 0, false);
    var have, node: Node?, offset := false, null, 0;
    ghost var M0, w := root.M, Walk(false, root.M, start, [], []);
    var over := false;
    while !over
      invariant root.Ok() && fresh(iter) && Kept(old(root.freed), old(root.t), root.freed, root.t)
      invariant if over then Rounds(M0, root.M, start, chosen, w.first, w.second, if w.again then w.M1 else root.M)
                else LoopAt(root, iter, f, have, node, offset, w.pos) && WalkOk(M0, root.M, start, chosen, w)
      decreases !over, !w.again, WORD - w.pos
    {
      over, have, node, offset, w := WalkStep(root, iter, f, have, node, offset, chosen, start, M0, w);
    }
    return w.first, w.second, if w.again then w.M1 else root.M;
  }

  /** One round of the loop. */
  method WalkStep(root: Root, iter: Cursor, f: Flags, have0: bool, node0: Node?, offset0: nat, chosen: set<nat>,
          ghost start: nat, ghost M0: Content<Node>, ghost w0: Walk)
    returns (over: bool, have: bool, node: Node?, offset: nat, ghost w: Walk)
    requires root.Ok() && !root.idr && f == Flags(false, 0, false)
    requires LoopAt(root, iter, f, have0, node0, offset0, w0.pos) && WalkOk(M0, root.M, start, chosen, w0)
    modifies root, root.t.nodes.Keys, iter
    ensures root.Ok() && Kept(old(root.freed), old(root.t), root.freed, root.t)
    ensures over ==> Rounds(M0, root.M, start, chosen, w.first, w.second, if w.again then w.M1 else root.M)
    ensures !over ==> LoopAt(root, iter, f, have, node, offset, w.pos) && WalkOk(M0, root.M, start, chosen, w)
    ensures !over ==> if w.again == w0.again then w.pos > w0.pos else w.again
  {
    have, node, offset, w := SettleWalk(root, iter, f, have0, node0, offset0, chosen, start, M0, w0);
    over := !have;
    if have { have, offset, w := VisitNext(root, iter, f, node, offset, chosen, start, M0, w); }
  }

  /** Settle as a step of the walk. */
  method SettleWalk(root: Root, iter: Cursor, f: Flags, have0: bool, node0: Node?, offset0: nat,
          ghost chosen: set<nat>, ghost start: nat, ghost M0: Content<Node>, ghost w0: Walk)
    returns (have: bool, node: Node?, offset: nat, ghost w: Walk)
    requires root.Ok() && !root.idr && f == Flags(false, 0, false)
    requires LoopAt(root, iter, f, have0, node0, offset0, w0.pos) && WalkOk(M0, root.M, start, chosen, w0)
    modifies iter
    ensures WalkOk(M0, root.M, start, chosen, w) && w.again == w0.again && w.pos >= w0.pos
    ensures have ==> LoopAt(root, iter, f, true, node, offset, w.pos)
    ensures !have ==> Rounds(M0, root.M, start, chosen, w.first, w.second, if w.again then w.M1 else root.M)
  {
    ghost var pos := w0.pos;
    have, node, offset, pos := Settle(root, iter, f, have0, node0, offset0, pos);
    WalkClear(M0, root.M, start, chosen, w0, pos);
    w := w0.(pos := pos);
    if !have { WalkEnds(M0, root.M, start, chosen, w); }
  }

  /** VisitOne as a step of the walk. */
  method VisitNext(root: Root, iter: Cursor, f: Flags, node: Node?, offset0: nat, chosen: set<nat>, ghost start: nat,
                   ghost M0: Content<Node>, ghost w0: Walk)
    returns (have: bool, offset: nat, ghost w: Walk)
    requires root.Ok() && !root.idr && f == Flags(false, 0, false) && LoopAt(root, iter, f, true, node, offset0, w0.pos)
    requires WalkOk(M0, root.M, start, chosen, w0)
    modifies root, root.t.nodes.Keys, iter
    ensures root.Ok() && Kept(old(root.freed), old(root.t), root.freed, root.t)
    ensures LoopAt(root, iter, f, have, node, offset, w.pos) && WalkOk(M0, root.M, start, chosen, w)
    ensures w.again == w0.again ==> w.pos > w0.pos
    ensures w0.again ==> w.again
  {
    ghost var M, pos, over := root.M, 0, false;
    have, offset, pos, over := VisitOne(root, iter, f, node, offset0, chosen);
    WalkMoves(M0, M, root.M, start, chosen, w0, pos, over);
    w := Moved(w0, w0.pos, pos, over, root.M);
  }

  /** What is known about a walk in progress: its round, what was left after the first, its position, its visits. */
  datatype Walk = Walk(again: bool, M1: Content<Node>, pos: nat, first: seq<nat>, second: seq<nat>)

  ghost predicate WalkOk(M0: Content<Node>, M: Content<Node>, start: nat, chosen: set<nat>, w: Walk) {
    && w.pos <= WORD
    && if w.again then SecondRound(M0, w.M1, M, start, chosen, w.pos, w.first, w.second)
       else start <= w.pos && w.second == [] && FirstRound(M0, M, start, chosen, w.pos, w.first)
  }

  function Moved(w: Walk, k: nat, c: nat, over: bool, M': Content<Node>): Walk {
    if w.again then w.(pos := c, second := w.second + [k])
    else if over then Walk(true, M', 0, w.first + [k], [])
    else w.(pos := c, first := w.first + [k])
  }

  lemma WalkMoves(M0: Content<Node>, M: Content<Node>, M': Content<Node>, start: nat, chosen: set<nat>, w: Walk, c: nat,
                  over: bool)
    requires WalkOk(M0, M, start, chosen, w) && w.pos in M && w.pos < c <= WORD
    requires M' == (if w.pos in chosen then M - {w.pos} else M) && Clear(KeySet(M'), w.pos + 1, c)
    requires (over <==> w.pos in chosen && LastBlockGone(M', w.pos)) && (over ==> c == WORD)
    ensures WalkOk(M0, M', start, chosen, Moved(w, w.pos, c, over, M'))
  {
    var k := w.pos;
    if w.again {
      LeftNext(w.M1, M, M', w.second, chosen, 0, k, c);
    } else {
      FirstMoves(M0, M, M', start, chosen, k, c, w.first);
    }
  }

  lemma WalkClear(M0: Content<Node>, M: Content<Node>, start: nat, chosen: set<nat>, w: Walk, b: nat)
    requires WalkOk(M0, M, start, chosen, w) && w.pos <= b <= WORD && Clear(KeySet(M), w.pos, b)
    ensures WalkOk(M0, M, start, chosen, w.(pos := b))
  {
    if w.again {
      LeftClear(w.M1, M, w.second, chosen, w.pos, b);
      ListsClear(KeySet(w.M1), 0, w.pos, b, w.second);
    } else {
      LeftClear(M0, M, w.first, chosen, w.pos, b);
      ListsClear(KeySet(M0), start, w.pos, b, w.first);
    }
  }

  lemma WalkEnds(M0: Content<Node>, M: Content<Node>, start: nat, chosen: set<nat>, w: Walk)
    requires WalkOk(M0, M, start, chosen, w) && w.pos == WORD && forall k :: k in M ==> k < WORD
    ensures Rounds(M0, M, start, chosen, w.first, w.second, if w.again then w.M1 else M)
  {
    if !w.again { RoundOver(M0, M, start, chosen, w.first); }
  }

  lemma RoundOver(M0: Content<Node>, M: Content<Node>, start: nat, chosen: set<nat>, first: seq<nat>)
    requires FirstRound(M0, M, start, chosen, WORD, first) && forall k :: k in M ==> k < WORD
    ensures !StartsOver(M0, start, chosen)
  {
    if k :| k in M && k >= WORD - 64 {
      assert k in M0 && k in KeySet(M0);
      assert StartsOver(M0, start, chosen) ==> k >= start && k in chosen;
    }
  }

  /** A walk that deletes all there is. */
  ghost predicate DeletesAll(M: Content<Node>, start: nat, chosen: set<nat>) {
    forall k :: k in M ==> k >= start && k in chosen
  }

  /** So the walk visits every entry exactly once if and only if it does not start over, or deletes all there is. */
  lemma VisitsOnce(M0: Content<Node>, M: Content<Node>, M1: Content<Node>, start: nat, chosen: set<nat>,
          first: seq<nat>, second: seq<nat>)
    requires (forall k :: k in M0 ==> k < WORD) && Rounds(M0, M, start, chosen, first, second, M1)
    ensures Lists(KeySet(M0), start, WORD, first + second) <==>
      !StartsOver(M0, start, chosen) || DeletesAll(M0, start, chosen)
  {
    forall k | k in M0 ensures k in M1 <==> !(k >= start && k in chosen) { assert k in KeySet(M0); }
    if second == [] {
      assert first + second == first;
      if StartsOver(M0, start, chosen) { assert forall k :: k in M1 ==> k in KeySet(M1) && k in second; }
    } else {
      TwiceMet(M0, M1, start, first, second);
    }
  }

  lemma TwiceMet(M0: Content<Node>, M1: Content<Node>, start: nat, first: seq<nat>, second: seq<nat>)
    requires Lists(KeySet(M0), start, WORD, first) && Lists(KeySet(M1), 0, WORD, second) && second != []
    requires forall k :: k in M1 ==> k in M0
    ensures !Lists(KeySet(M0), start, WORD, first + second) && second[0] in M1
  {
    var x := second[0];
    assert x in second && x in KeySet(M1) && x in KeySet(M0);
    assert (first + second)[|first|] == x;
    if x >= start {
      var i :| 0 <= i < |first| && first[i] == x;
      assert (first + second)[i] == x;
    } else {
      assert x in first + second;
    }
  }

  lemma {:induction false} ListsOnce(X: iset<nat>, a: nat, b: nat, s1: seq<nat>, s2: seq<nat>)
    requires Lists(X, a, b, s1) && Lists(X, a, b, s2)
    ensures s1 == s2
    decreases |s1|
  {
    if s1 != [] { assert s1[0] in s1 && s1[0] in s2; }
    if s2 != [] { assert s2[0] in s2 && s2[0] in s1; }
    if s1 != [] && s2 != [] {
      assert s1[0] == s2[0];
      ListsRest(X, a, b, s1);
      ListsRest(X, a, b, s2);
      ListsOnce(X, s1[0] + 1, b, s1[1..], s2[1..]);
    }
  }

  lemma ListsRest(X: iset<nat>, a: nat, b: nat, s: seq<nat>)
    requires Lists(X, a, b, s) && s != []
    ensures Lists(X, s[0] + 1, b, s[1..])
  {
    var r := s[1..];
    assert forall i :: 0 <= i < |r| ==> r[i] == s[i + 1];
    forall x ensures x in r <==> x in s && x > s[0] {
      if x in r {
        var i :| 0 <= i < |r| && r[i] == x;
        assert s[i + 1] == x && s[0] < s[i + 1];
      }
      if x in s && x > s[0] {
        var i :| 0 <= i < |s| && s[i] == x;
        assert r[i - 1] == x;
      }
    }
    assert s[0] in s;
  }

  /** The least example: of the entries 0 and 2^64 - 1 the latter is deleted in a walk from 0, and entry 0 is met
      twice. */
  lemma MetTwice(a: Entry<Node>, b: Entry<Node>, M: Content<Node>, M1: Content<Node>, first: seq<nat>, second: seq<nat>)
    requires Rounds(map[0 := a, WORD - 1 := b], M, 0, {WORD - 1}, first, second, M1)
    ensures first == [0, WORD - 1] && second == [0]
  {
    var M0 := map[0 := a, WORD - 1 := b];
    ListsOnce(KeySet(M0), 0, WORD, first, [0, WORD - 1]);
    assert WORD - 1 in M0;
    assert StartsOver(M0, 0, {WORD - 1});
    assert 0 in first && WORD - 1 in first && 0 in M1 && WORD - 1 !in M1;
    ListsOnce(KeySet(M1), 0, WORD, second, [0]);
  }

  /** The position of a contiguous loop before index `end`: at its slot, or about to look for it, or over. */
  ghost predicate RunAt(root: Root, iter: Cursor, f: Flags, have: bool, node: Node?, offset: nat, end: nat)
    reads root, root.t.nodes.Keys, iter, node
  {
    if have then InChunk(root, iter, f, node, offset) && iter.index == end && end in KeySet(root.M)
    else iter.nextIndex < WORD && if Over(iter) then end !in KeySet(root.M) else iter.nextIndex == end
  }

  /** The increment of a contiguous loop. */
  method RunNext(root: Root, iter: Cursor, f: Flags, node: Node?, offset0: nat) returns (have: bool, offset: nat)
    requires root.Ok() && !root.idr && f == Flags(false, 0, true) &&
      RunAt(root, iter, f, true, node, offset0, iter.index)
    modifies iter
    ensures RunAt(root, iter, f, have, node, offset, old(iter.index) + 1)
  {
    assert WORD !in root.M;
    if node != null { ChunkFacts(root, iter, f, node, offset0); }
    have, offset := NextSlot(root, iter, f, node, offset0);
  }

  /** One round of a contiguous loop at index `end`. */
  method RunStep(root: Root, iter: Cursor, f: Flags, have0: bool, node0: Node?, offset0: nat, ghost end: nat)
    returns (over: bool, have: bool, node: Node?, offset: nat)
    requires root.Ok() && !root.idr && f == Flags(false, 0, true) && end <= WORD
    requires RunAt(root, iter, f, have0, node0, offset0, end)
    modifies iter
    ensures over ==> end !in root.M
    ensures !over ==> end in root.M && end < WORD && RunAt(root, iter, f, have, node, offset, end + 1)
  {
    over, have, node, offset := false, have0, node0, offset0;
    if !have {
      have, node, offset := NextChunk(root, iter, f);
      if !have { return true, have, node, offset; }
    }
    assert end in KeySet(root.M);
    have, offset := RunNext(root, iter, f, node, offset);
  }

  /** Contiguous iteration visits exactly the unbroken run of present indices that begins at
      `start`: nothing if `start` is absent, and across chunks up to the first absent index. */
  method ContiguousRun(root: Root, start: nat) returns (end: nat)
    requires root.Ok() && !root.idr && start < WORD
    ensures start <= end <= WORD && end !in root.M
    ensures forall k :: start <= k < end ==> k in root.M
  {
    var iter := new Cursor(start);
    var f := Flags(false, 0, true);
    var have, node: Node?, offset := false, null, 0;
    end := start;
    var over := false;
    while !over
      invariant fresh(iter) && start <= end <= WORD && if over then end !in root.M else
        RunAt(root, iter, f, have, node, offset, end)
      invariant forall k :: start <= k < end ==> k in root.M
      modifies iter
      decreases !over, WORD - end
    {
      over, have, node, offset := RunStep(root, iter, f, have, node, offset, end);
      if !over { end := end + 1; }
    }
  }

  /** radix_tree_iter_lookup succeeds exactly on present indices. */
  method IterLookup(root: Root, iter: Cursor, index: nat) returns (found: bool, node: Node?, offset: nat)
    requires root.Ok() && !root.idr && index < WORD
    modifies iter
    ensures found <==> index in root.M
    ensures found ==> iter.index == index && SlotFor(root.t, node, offset, index)
  {
    iter.index, iter.nextIndex := 0, index;
    found, node, offset := NextChunk(root, iter, Flags(false, 0, true));
    assert index in KeySet(root.M) <==> index in root.M;
  }
}
