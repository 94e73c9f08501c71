/** idr_get_free and its users: an IDR is a tree whose tag 0 marks the absent indices. */
module Idr {
  import opened Errno
  import opened Words
  import opened TreeHeap
  import opened TreeSteps
  import opened TreeTags
  import opened Canonical
  import opened RadixTree
  import opened Iter

  /** Ids lie below 2^60, well above the 32 bits the IDR interface offers. */
  const ID_LIMIT: nat := 0x1000_0000_0000_0000

  ghost predicate Taken(M: Content<Node>, a: nat, b: nat) { forall j :: a <= j < b ==> j in M }

  /** The least free id from `from` to `max`. */
  ghost predicate LeastFree(M: Content<Node>, from: nat, max: nat, id: nat) {
    from <= id <= max && id !in M && Taken(M, from, id)
  }

  /** A clear IDR_FREE bit stands for ids that are all taken. */
  lemma ClearSlotTaken(t: Tree<Node>, M: Content<Node>, K: Marks, n: Node, i: nat, j: nat)
    requires TreeOk(t, M, K) && t.idr && n in t.nodes && RecOk(t.nodes[n]) && i < 64
    requires i !in t.nodes[n].tags[FREE] && Shr(j, t.nodes[n].shift) == 64 * t.nodes[n].prefix + i
    ensures j in M
  {
    BitMeaning(t, M, K, n, FREE, i);
    assert Under(j, t.nodes[n].shift, 64 * t.nodes[n].prefix + i);
  }

  lemma LimitShift(k: nat, s: nat)
    requires k < ID_LIMIT && s % 6 == 0 && Shr(k, s) > 0
    ensures s <= 54
  {
    if s >= 60 {
      Pow60();
      FirstBelow(k, 60, 1);
      ShrZeroUp(k, 60, s);
    }
  }

  /** The next slot of `node` that may hold a free id, and the first id from there on. */
  method NextFree(root: Root, node: Node, offset: nat, start: nat) returns (o: nat, st: nat)
    requires root.Ok() && root.idr && node in root.t.nodes && RecOk(root.t.nodes[node]) &&
      root.t.nodes[node].shift <= 54
    requires Covers(root.t.nodes[node], start) && offset == Digit(start, root.t.nodes[node].shift) && start < ID_LIMIT
    requires offset !in root.t.nodes[node].tags[FREE]
    ensures offset < o <= 64 && start < st
    ensures st == First(root.t.nodes[node].shift, 64 * root.t.nodes[node].prefix + o)
    ensures Taken(root.M, start, st)
    ensures o < 64 ==> o in root.t.nodes[node].tags[FREE]
  {
    assert node.View() == root.t.nodes[node];
    o := NextBit(node.tags[FREE], offset + 1);
    st := NextIndex(start, node.shift, o);
    LowNext(start, node.shift, o);
    TakenBehind(root.t, root.M, root.K, node, offset, o, start);
  }

  /** Below the limit the next index does not wrap. */
  lemma LowNext(start: nat, s: nat, o: nat)
    requires start < ID_LIMIT && s % 6 == 0 && s <= 54 && Digit(start, s) < o <= 64
    ensures start < First(s, 64 * Shr(start, s + 6) + o)
    ensures NextIndex(start, s, o) == First(s, 64 * Shr(start, s + 6) + o)
  {
    var q := 64 * Shr(start, s + 6) + o;
    ShrBounds(start, s);
    MulMono(q, Shr(start, s) + 64, Pow2(s));
    assert (Shr(start, s) + 64) * Pow2(s) == Shr(start, s) * Pow2(s) + 64 * Pow2(s);
    PowBound(s);
    NextIndexIs(start, s, o);
    FirstBelow(start, s, q);
  }

  /** Slots without IDR_FREE are passed: all their ids are taken. */
  lemma TakenBehind(t: Tree<Node>, M: Content<Node>, K: Marks, n: Node, offset: nat, o: nat, start: nat)
    requires TreeOk(t, M, K) && t.idr && n in t.nodes && RecOk(t.nodes[n]) && offset < o <= 64
    requires Covers(t.nodes[n], start) && offset == Digit(start, t.nodes[n].shift)
    requires forall x :: offset <= x < o ==> x !in t.nodes[n].tags[FREE]
    ensures Taken(M, start, First(t.nodes[n].shift, 64 * t.nodes[n].prefix + o))
  {
    var s, p := t.nodes[n].shift, t.nodes[n].prefix;
    forall j | start <= j < First(s, 64 * p + o) ensures j in M {
      FirstBelow(j, s, 64 * p + o);
      ShrMono(start, j, s);
      ClearSlotTaken(t, M, K, n, Shr(j, s) - 64 * p, j);
    }
  }

  /** Up to the first ancestor that has a slot after the exhausted one. */
  method Climb(root: Root, node0: Node, o: nat, start: nat) returns (node: Node?, offset: nat)
    requires root.Ok() && node0 in root.t.nodes && RecOk(root.t.nodes[node0]) && o <= 64
    requires start == First(root.t.nodes[node0].shift, 64 * root.t.nodes[node0].prefix + o)
    ensures node != null ==> node in root.t.nodes && RecOk(root.t.nodes[node]) && offset < 64
    ensures node != null ==> Covers(root.t.nodes[node], start) && offset == Digit(start, root.t.nodes[node].shift)
    ensures node != null ==> (node == node0 && offset == o) || root.t.nodes[node].shift > 0
    ensures node == null ==> root.head.Internal? && Shr(start, HeadShift(root.t)) > 0
  {
    node, offset := node0, o;
    while offset == 64
      invariant node != null && node in root.t.nodes && RecOk(root.t.nodes[node]) && offset <= 64
      invariant start == First(root.t.nodes[node].shift, 64 * root.t.nodes[node].prefix + offset)
      invariant (node == node0 && offset == o) || root.t.nodes[node].shift > 0
      decreases 66 - root.t.nodes[node].shift
    {
      assert node.View() == root.t.nodes[node];
      ghost var was: Node, r := node, root.t.nodes[node];
      assert ParentOk(root.t, node);
      FirstUp(r.shift, r.prefix + 1);
      offset := node.offset + 1;
      node := node.parent;
      if node == null {
        FirstIn(r.shift, 64);
        return;
      }
      ParentFacts(root.t, was, node);
    }
    FirstIn(root.t.nodes[node].shift, 64 * root.t.nodes[node].prefix + offset);
  }

  /** Continue: the descent goes on. The others end it, as the source's labels and errors do. */
  datatype Outcome = Continue | Found | NoSpace | NoMemory | Regrow

  /** The search stands before a slot of `start`, and every id from `from` to `start` is taken. */
  ghost predicate Seeking(t: Tree<Node>, M: Content<Node>, from: nat, start: nat, max: nat,
                          node: Node?, shift: nat, offset: nat, child: Entry<Node>) {
    && from <= start <= max < ID_LIMIT && Taken(M, from, start) && HeadShift(t) <= 60
    && shift % 6 == 0 && shift <= 60 && AtSlot(t, node, shift, offset, child, start)
    && (node == null ==> shift > 0)
    && (shift == 0 ==> |t.nodes[node].tags| == MAX_TAGS && offset in t.nodes[node].tags[FREE])
  }

  /** Until a node is added the tree is as minimal as it was; afterwards the path to `start` is being built. */
  ghost predicate Tidy(t: Tree<Node>, grown: bool, node: Node?, start: nat) {
    if grown then Busy(t, Up(node)) && HighRoot(t, start) else Minimal(t)
  }

  /** What idr_get_free does at a clear IDR_FREE bit: on to the next slot that may hold a free id. */
  method SkipTaken(root: Root, ghost from: nat, start0: nat, max: nat, node0: Node, offset0: nat)
    returns (out: Outcome, start: nat, node: Node?, offset: nat)
    requires root.Ok() && root.idr && node0 in root.t.nodes && RecOk(root.t.nodes[node0])
    requires HeadShift(root.t) <= 60 && Covers(root.t.nodes[node0], start0) &&
      offset0 == Digit(start0, root.t.nodes[node0].shift)
    requires offset0 !in root.t.nodes[node0].tags[FREE]
    requires from <= start0 <= max < ID_LIMIT && Taken(root.M, from, start0)
    ensures start0 < start && (out == Continue <==> node != null)
    ensures out == Continue || out == NoSpace || out == Regrow
    ensures out == NoSpace ==> Taken(root.M, from, max + 1)
    ensures out != NoSpace ==> start <= max && Taken(root.M, from, start)
    ensures out == Regrow ==> root.head.Internal? && Shr(start, HeadShift(root.t)) > 0
    ensures node != null ==> node in root.t.nodes && RecOk(root.t.nodes[node]) && root.t.nodes[node].shift <= 54
    ensures node != null ==>
      AtSlot(root.t, node, root.t.nodes[node].shift, offset, root.t.nodes[node].slots[offset % 64], start)
    ensures node != null && root.t.nodes[node].shift == 0 ==> offset in root.t.nodes[node].tags[FREE]
  {
    RootTop(root.t, node0);
    var o;
    o, start := NextFree(root, node0, offset0, start0);
    if start > max {
      return NoSpace, start, null, 0;
    }
    node, offset := Climb(root, node0, o, start);
    if node == null {
      return Regrow, start, null, 0;
    }
    RootTop(root.t, node);
    return Continue, start, node, offset;
  }

  /** Into the child of the slot, which is added if it is missing. */
  method EnterChild(root: Root, ghost from: nat, ghost start: nat, ghost max: nat, node0: Node?, shift0: nat,
          offset0: nat, child: Entry<Node>, ghost grown0: bool, ghost neat: bool)
    returns (node: Node?, ghost grown: bool)
    requires root.Ok() && root.idr && shift0 > 0
    requires Seeking(root.t, root.M, from, start, max, node0, shift0, offset0, child)
    requires (grown0 ==> start !in root.M) && (neat ==> Tidy(root.t, grown0, node0, start))
    modifies root, root.pool, root.t.nodes.Keys
    ensures root.Ok() && root.M == old(root.M) && root.K == old(root.K) && HeadShift(root.t) <= 60
    ensures forall n :: n in root.t.nodes ==> n in old(root.t).nodes || fresh(n)
    ensures Charged(old(root.pool.Account()), root.pool.Account(), node == null) && shift0 >= 6
    ensures node == null ==> root.pool.nr == 0 && start !in root.M && !HasLeaf(old(root.t), start)
    ensures node != null ==> node in root.t.nodes && RecOk(root.t.nodes[node])
    ensures node != null ==> root.t.nodes[node].shift == shift0 - 6 && Covers(root.t.nodes[node], start)
    ensures node != null ==> grown == (grown0 || child == Null)
    ensures node != null ==> if grown then start !in root.M else root.t == old(root.t)
    ensures node != null && grown && !grown0 ==> !HasLeaf(old(root.t), start)
    ensures node != null && neat ==> Tidy(root.t, grown, node, start)
  {
    StepDown(shift0);
    if neat && !grown0 { MinimalIsHigh(root.t, root.M, start); }
    grown := grown0 || child == Null;
    node := root.Down(node0, child, shift0 - 6, offset0, start, neat);
  }

  /** One round of the descent of idr_get_free. */
  method SeekStep(root: Root, ghost from: nat, start0: nat, max: nat, node0: Node?, shift0: nat, offset0: nat,
                  child0: Entry<Node>, ghost grown0: bool, ghost neat: bool)
    returns (out: Outcome, start: nat, node: Node?, shift: nat, offset: nat, child: Entry<Node>, ghost grown: bool)
    requires root.Ok() && root.idr && shift0 > 0
    requires Seeking(root.t, root.M, from, start0, max, node0, shift0, offset0, child0)
    requires (grown0 ==> start0 !in root.M) && (neat ==> Tidy(root.t, grown0, node0, start0))
    modifies root, root.pool, root.t.nodes.Keys
    ensures root.Ok() && root.M == old(root.M) && root.K == old(root.K)
    ensures forall n :: n in root.t.nodes ==> n in old(root.t).nodes || fresh(n)
    ensures out != Found && start0 <= start && (grown0 ==> start == start0)
    ensures Charged(old(root.pool.Account()), root.pool.Account(), out == NoMemory)
    ensures out == NoMemory || (out == Continue && grown && !grown0) ==> !HasLeaf(old(root.t), start)
    ensures out == NoMemory ==> Taken(root.M, from, start)
    ensures out == Continue ==> Seeking(root.t, root.M, from, start, max, node, shift, offset, child)
    ensures out == Continue ==> start > start0 || shift < shift0
    ensures out == Continue ==> (grown0 ==> grown) && (if grown then start !in root.M else root.t == old(root.t))
    ensures out == Continue && neat ==> Tidy(root.t, grown, node, start)
    ensures out == NoSpace ==> root.t == old(root.t) && !grown0 && Taken(root.M, from, max + 1)
    ensures out == NoMemory ==> root.pool.nr == 0 && from <= start <= max && start !in root.M && HeadShift(root.t) <= 60
    ensures out == Regrow ==> root.t == old(root.t) && !grown0 && start0 < start <= max && root.head.Internal?
    ensures out == Regrow ==> Taken(root.M, from, start) && Shr(start, HeadShift(root.t)) > 0
  {
    start, shift, child := start0, shift0 - 6, child0;
    var n;
    n, grown := EnterChild(root, from, start, max, node0, shift0, offset0, child, grown0, neat);
    if n == null {
      return NoMemory, start, null, shift, 0, Null, grown;
    }
    node := n;
    assert node.View() == root.t.nodes[node];
    offset := Digit(start, node.shift);
    child := node.slots[offset];
    if offset in node.tags[FREE] {
      return Continue, start, node, shift, offset, child, grown;
    }
    ClearSlotTaken(root.t, root.M, root.K, node, offset, start);
    out, start, node, offset := SkipTaken(root, from, start, max, node, offset);
    if node == null {
      return out, start, null, shift, 0, Null, grown;
    }
    assert node.View() == root.t.nodes[node];
    shift, child := node.shift, node.slots[offset];
  }

  /** The descent of idr_get_free towards the first free id from `start0` on. `from` is the id the
      search began with; `grown0` whether a node has been added since. */
  method Seek(root: Root, ghost from: nat, start0: nat, max: nat, child0: Entry<Node>, shift0: nat, ghost grown0: bool,
          ghost neat: bool)
    returns (out: Outcome, start: nat, node: Node?, offset: nat)
    requires root.Ok() && root.idr && shift0 > 0
    requires Seeking(root.t, root.M, from, start0, max, null, shift0, 0, child0)
    requires (grown0 ==> start0 !in root.M) && (neat ==> Tidy(root.t, grown0, null, start0))
    modifies root, root.pool, root.t.nodes.Keys
    ensures root.Ok() && root.M == old(root.M) && root.K == old(root.K)
    ensures forall n :: n in root.t.nodes ==> n in old(root.t).nodes || fresh(n)
    ensures out != Continue
    ensures out == Found ==>
      from <= start <= max && start !in root.M && Taken(root.M, from, start) && HeadShift(root.t) <= 60
    ensures out == Found ==> node != null && SlotFor(root.t, node, offset, start)
    ensures out == Found && neat ==> Busy(root.t, Up(node)) && HighRoot(root.t, start)
    ensures out == NoSpace ==> root.t == old(root.t) && !grown0 && Taken(root.M, from, max + 1)
    ensures out == NoMemory ==> root.pool.nr == 0 && from <= start <= max && start !in root.M && HeadShift(root.t) <= 60
    ensures out == Regrow ==> root.t == old(root.t) && !grown0 && start0 < start <= max && root.head.Internal?
    ensures out == Regrow ==> Taken(root.M, from, start) && Shr(start, HeadShift(root.t)) > 0
    ensures Charged(old(root.pool.Account()), root.pool.Account(), out == NoMemory)
    ensures out == NoMemory ==> Taken(root.M, from, start) && (!grown0 ==> !HasLeaf(old(root.t), start))
    ensures grown0 ==> start == start0
  {
    var child, shift: nat := child0, shift0;
    out, start, node, offset := Continue, start0, null, 0;
    ghost var grown := grown0;
    while shift > 0
      invariant root.Ok() && root.M == old(root.M) && root.K == old(root.K)
      invariant forall n :: n in root.t.nodes ==> n in old(root.t).nodes || fresh(n)
      invariant start0 <= start && Seeking(root.t, root.M, from, start, max, node, shift, offset, child)
      invariant (grown0 ==> grown) && if grown then start !in root.M else root.t == old(root.t)
      invariant neat ==> Tidy(root.t, grown, node, start)
      invariant Charged(old(root.pool.Account()), root.pool.Account(), false) && (grown0 ==> start == start0)
      invariant grown && !grown0 ==> !HasLeaf(old(root.t), start)
      decreases max - start, shift
    {
      out, start, node, shift, offset, child, grown :=
        SeekStep(root, from, start, max, node, shift, offset, child, grown, neat);
      if out != Continue {
        return;
      }
    }
    out := Found;
    LeafKey(root.t.nodes[node], start);
    assert BitOk(root.t, root.K, FREE, node, offset);
    if neat && !grown { MinimalIsHigh(root.t, root.M, start); }
  }

  /** Without the root's IDR_FREE tag, every id the tree covers is taken. */
  lemma NoRootTag(t: Tree<Node>, M: Content<Node>, K: Marks, j: nat)
    requires TreeOk(t, M, K) && t.idr && FREE !in t.rootTags
    ensures t.head.Internal?
    ensures Shr(j, HeadShift(t)) == 0 ==> j in M
  {
    assert RootBitOk(t, K, FREE);
    var n := t.head.node;
    assert RecOk(t.nodes[n]);
    NodeBits(t, M, K, n, FREE);
    assert Under(j, t.nodes[n].shift + 6, 0) <==> Shr(j, HeadShift(t)) == 0;
  }

  /** The iterator describes the rest of the leaf: up to its end or to max, with the free ids as tags. */
  ghost predicate ChunkOf(iter: Cursor, M: Content<Node>, offset: nat, max: nat)
    reads iter
  {
    && iter.index < iter.nextIndex <= max + 1 && (iter.nextIndex == max + 1 || iter.nextIndex % 64 == 0) &&
      iter.nextIndex <= 64 * (iter.index / 64) + 64
    && forall j: nat {:trigger j in iter.tags} :: j in iter.tags <==> offset + j < 64 && iter.index + j !in M
  }

  lemma FreeTags(t: Tree<Node>, M: Content<Node>, K: Marks, n: Node, offset: nat, id: nat)
    requires TreeOk(t, M, K) && t.idr && n in t.nodes && t.nodes[n].shift == 0 && Covers(t.nodes[n], id) &&
      offset == Digit(id, 0)
    ensures RecOk(t.nodes[n])
    ensures forall j: nat {:trigger j in ShiftDown(t.nodes[n].tags[FREE], offset)} ::
      j in ShiftDown(t.nodes[n].tags[FREE], offset) <==> offset + j < 64 && id + j !in M
  {
    assert RecOk(t.nodes[n]);
    LeafKey(t.nodes[n], id);
    var s := t.nodes[n].tags[FREE];
    forall j: nat {:trigger j in ShiftDown(s, offset)}
      ensures j in ShiftDown(s, offset) <==> offset + j < 64 && id + j !in M
    {
      assert Above(s, offset, j) <==> j + offset in s;
      if offset + j < 64 { assert BitOk(t, K, FREE, n, offset + j); }
    }
  }

  /** idr_get_free: the slot of the least free id from iter.nextIndex to max. */
  method GetFree(root: Root, iter: Cursor, max: nat) returns (err: int, node: Node?, offset: nat)
    requires root.Ok() && root.idr && HeadShift(root.t) <= 60 && max < ID_LIMIT
    modifies root, root.pool, root.t.nodes.Keys, iter
    ensures root.Ok() && root.M == old(root.M) && root.K == old(root.K)
    ensures forall n :: n in root.t.nodes ==> n in old(root.t).nodes || fresh(n)
    ensures err == 0 || err == -ENOSPC || err == -ENOMEM
    ensures err == 0 ==> LeastFree(root.M, old(iter.nextIndex), max, iter.index) && iter.node == node
    ensures HeadShift(root.t) <= 60
    ensures err == 0 ==> node != null && SlotFor(root.t, node, offset, iter.index)
    ensures err == 0 && old(Minimal(root.t)) ==> Busy(root.t, Up(node)) && HighRoot(root.t, iter.index)
    ensures err == -ENOSPC ==> Taken(root.M, old(iter.nextIndex), max + 1) && root.t == old(root.t)
    ensures err == 0 ==> ChunkOf(iter, root.M, offset, max)
    ensures err == -ENOMEM ==> root.pool.nr == 0 && !Taken(root.M, old(iter.nextIndex), max + 1)
    ensures Charged(old(root.pool.Account()), root.pool.Account(), err == -ENOMEM)
    ensures forall id {:trigger LeastFree(root.M, old(iter.nextIndex), max, id)} ::
      LeastFree(root.M, old(iter.nextIndex), max, id) && HasLeaf(old(root.t), id) ==> err == 0
  {
    var start := iter.nextIndex;
    ghost var from, neat := start, Minimal(root.t);
    while true
      invariant root.Ok() && root.t == old(root.t) && root.M == old(root.M) && root.K == old(root.K)
      invariant from <= start && Taken(root.M, from, start) && iter.nextIndex == from
      invariant Charged(old(root.pool.Account()), root.pool.Account(), false)
      decreases if Shr(start, HeadShift(root.t)) > 0 then 0 else 1
    {
      var out;
      out, start, node, offset := TryFree(root, from, start, max, neat);
      match out {
        case Continue => assert false;
        case Found => break;
        case NoSpace => return -ENOSPC, null, 0;
        case NoMemory => return -ENOMEM, null, 0;
        case Regrow =>
      }
    }
    Describe(root, iter, node, offset, start, max);
    err := 0;
  }

  /** The end of idr_get_free: the iterator is told where the id is. */
  method Describe(root: Root, iter: Cursor, node: Node, offset: nat, start: nat, max: nat)
    requires root.Ok() && root.idr && SlotFor(root.t, node, offset, start) && start <= max
    modifies iter
    ensures iter.index == start && iter.node == node && ChunkOf(iter, root.M, offset, max)
  {
    assert node.View() == root.t.nodes[node] && RecOk(root.t.nodes[node]);
    iter.index := start;
    var last := 64 * (start / 64) + 63;
    iter.nextIndex := 1 + if max < last then max else last;
    iter.node := node;
    iter.tags := ShiftDown(node.tags[FREE], offset);
    FreeTags(root.t, root.M, root.K, node, offset, start);
  }

  /** A tree without the IDR_FREE root tag has nothing to offer below its maximum index. */
  method Begin(root: Root, ghost from: nat, start0: nat) returns (start: nat)
    requires root.Ok() && root.idr && from <= start0 && Taken(root.M, from, start0)
    ensures start0 <= start && Taken(root.M, from, start)
    ensures start0 == start || Shr(start0, HeadShift(root.t)) == 0
  {
    var c, s, maxindex := root.LoadRoot();
    start := start0;
    if FREE !in root.rootTags {
      forall j | start0 <= j <= maxindex ensures j in root.M {
        MaxIndexIs(root.t, j);
        NoRootTag(root.t, root.M, root.K, j);
      }
      if start0 <= maxindex { MaxIndexIs(root.t, start0); }
      start := if start0 < maxindex + 1 then maxindex + 1 else start0;
    }
  }

  /** From the label grow to the end of the descent. */
  method TryFree(root: Root, ghost from: nat, start0: nat, max: nat, ghost neat: bool)
    returns (out: Outcome, start: nat, node: Node?, offset: nat)
    requires root.Ok() && root.idr && HeadShift(root.t) <= 60 && max < ID_LIMIT
    requires from <= start0 && Taken(root.M, from, start0) && (neat ==> Minimal(root.t))
    modifies root, root.pool, root.t.nodes.Keys
    ensures root.Ok() && root.M == old(root.M) && root.K == old(root.K)
    ensures forall n :: n in root.t.nodes ==> n in old(root.t).nodes || fresh(n)
    ensures out != Continue
    ensures out == Found ==>
      from <= start <= max && start !in root.M && Taken(root.M, from, start) && HeadShift(root.t) <= 60
    ensures out == Found ==> node != null && SlotFor(root.t, node, offset, start)
    ensures out == Found && neat ==> Busy(root.t, Up(node)) && HighRoot(root.t, start)
    ensures out == NoSpace ==> root.t == old(root.t) && Taken(root.M, from, max + 1)
    ensures out == NoMemory ==> root.pool.nr == 0 && from <= start <= max && start !in root.M && HeadShift(root.t) <= 60
    ensures out == Regrow ==> root.t == old(root.t) && start0 < start && Taken(root.M, from, start)
    ensures out == Regrow ==> Shr(start0, HeadShift(root.t)) == 0 && Shr(start, HeadShift(root.t)) > 0
    ensures Charged(old(root.pool.Account()), root.pool.Account(), out == NoMemory)
    ensures out == NoMemory ==> !HasLeaf(old(root.t), start) && Taken(root.M, from, start)
  {
    start := Begin(root, from, start0);
    if start > max {
      return NoSpace, start, null, 0;
    }
    ghost var t0 := root.t;
    var ok, child, shift;
    ghost var raised;
    ok, child, shift, raised := root.Reach(start);
    if !ok {
      return NoMemory, start, null, 0;
    }
    if start == 0 && shift == 0 {
      shift := 6;
    }
    if shift > 60 { LimitShift(start, shift - 6); }
    out, start, node, offset := Seek(root, from, start, max, child, shift, root.t != t0, neat);
  }

  /** Once an id is present, its slot in an absent id's node can take an entry. */
  lemma StoreIdPre(t: Tree<Node>, M: Content<Node>, K: Marks, node: Node, offset: nat, id: nat, ptr: Entry<Node>)
    requires TreeOk(t, M, K) && t.idr && SlotFor(t, node, offset, id) && id !in M && id < WORD &&
      (ptr.Data() || ptr == Null)
    ensures StorePre(t, M, node, offset, id, ptr) && BaseOk(Store(t, node, offset, ptr), M[id := ptr])
    ensures TagsOk(Store(t, node, offset, ptr), K)
    ensures t.nodes[node].slots[offset] == Null && offset in t.nodes[node].tags[FREE]
    ensures Store(t, node, offset, ptr).nodes[node].count > 0
  {
    assert RecOk(t.nodes[node]) && CountOk(t.nodes[node], M);
    LeafKey(t.nodes[node], id);
    assert LeafOk(t.nodes[node], M, offset) && BitOk(t, K, FREE, node, offset);
    StoreBase(t, M, node, offset, id, ptr);
    var t' := Store(t, node, offset, ptr);
    SlotStoreBits(t, K, node, t'.nodes[node], None);
    forall g | 0 <= g < MAX_TAGS ensures RootBitOk(t', K, g) { assert RootBitOk(t, K, g); }
  }

  /** radix_tree_iter_replace on the slot idr_get_free returned. The slot is free and empty, so
      calculate_count gives 1. The delete_node at the end then returns at its first test: the node
      counts something, and a shrink stops at an IDR leaf. */
  method Replace(root: Root, node: Node, offset: nat, ptr: Entry<Node>, ghost id: nat)
    requires root.Ok() && root.idr && SlotFor(root.t, node, offset, id) && id !in root.M && id < WORD
    requires ptr.Data() || ptr == Null
    modifies root, root.t.nodes.Keys
    ensures root.Coupled() && BaseOk(root.t, root.M) && TagsOk(root.t, root.K) && root.K == old(root.K)
    ensures RecOk(old(root.t).nodes[node]) && offset < 64
    ensures root.M == old(root.M)[id := ptr] && root.t == Store(old(root.t), node, offset, ptr)
  {
    assert RecOk(root.t.nodes[node]);
    StoreIdPre(root.t, root.M, root.K, node, offset, id, ptr);
    assert node.View() == root.t.nodes[node];
    var free, prior := offset in node.tags[FREE], node.slots[offset];
    var count := if !free then 0 else if prior == Null then 1 else 0;
    assert count == 1;
    root.StoreSlot(node, offset, ptr);
    root.M := root.M[id := ptr];
    var empty, shrinks := NodeStays(root, node);
  }

  /** delete_node at a leaf of an allocator that is not empty: nothing is freed, and radix_tree_shrink finds no work. */
  method NodeStays(root: Root, node: Node) returns (empty: bool, shrinks: bool)
    requires root.Coupled() && root.idr && BaseOk(root.t, root.M) && node in root.t.nodes
    requires root.t.nodes[node].shift == 0 && root.t.nodes[node].count != 0
    ensures root.t.nodes[node].count > 0 && !empty
    ensures !shrinks && !(root.head == Internal(node) && ShrinkTest(root.t.nodes[node], root.idr))
  {
    assert node.View() == root.t.nodes[node] && CountOk(root.t.nodes[node], root.M);
    empty, shrinks := root.At(node).count == 0, false;
    if !empty && root.head.Internal? && root.head.node == node {
      shrinks := root.ShrinkWanted();
    }
  }

  /** The two calls that complete an allocation in the slot idr_get_free returned. */
  method Commit(root: Root, node: Node, offset: nat, ptr: Entry<Node>, ghost id: nat)
    requires root.Ok() && root.idr && SlotFor(root.t, node, offset, id) && id !in root.M && id < WORD
    requires ptr.Data() || ptr == Null
    modifies root, root.t.nodes.Keys
    ensures root.Ok() && root.M == old(root.M)[id := ptr] && HeadShift(root.t) == old(HeadShift(root.t))
    ensures root.t.nodes.Keys == old(root.t).nodes.Keys
    ensures old(Busy(root.t, Some(node)) && HighRoot(root.t, id)) ==> Minimal(root.t)
  {
    ghost var s, M0 := root.t, root.M;
    Replace(root, node, offset, ptr, id);
    ghost var s1 := root.t;
    root.NodeTagClear(node, FREE, offset, id);
    assert MarksOk(root.idr, root.M, root.K);
    if Busy(s, Some(node)) && HighRoot(s, id) {
      StoreIdMinimal(s, M0, node, offset, id, ptr);
      SameMinimal(s1, root.t);
    }
    HeadShiftSame(s1, root.t);
  }

  /** idr_alloc: idr_get_free, radix_tree_iter_replace, radix_tree_iter_tag_clear. The least free id
      from `start` to `max` now holds `ptr`, which may be NULL; no other id changes. */
  method Alloc(root: Root, start: nat, max: nat, ptr: Entry<Node>) returns (err: int, id: nat)
    requires root.Ok() && root.idr && HeadShift(root.t) <= 60 && max < ID_LIMIT && (ptr.Data() || ptr == Null)
    modifies root, root.pool, root.t.nodes.Keys
    ensures root.Ok() && HeadShift(root.t) <= 60
    ensures forall n :: n in root.t.nodes ==> n in old(root.t).nodes || fresh(n)
    ensures err == 0 || err == -ENOSPC || err == -ENOMEM
    ensures err == 0 ==> LeastFree(old(root.M), start, max, id)
    ensures root.M == if err == 0 then old(root.M)[id := ptr] else old(root.M)
    ensures err == -ENOSPC ==> Taken(root.M, start, max + 1) && root.t == old(root.t)
    ensures err == -ENOMEM ==> root.pool.nr == 0 && !Taken(root.M, start, max + 1)
    ensures Charged(old(root.pool.Account()), root.pool.Account(), err == -ENOMEM)
    ensures forall i {:trigger LeastFree(old(root.M), start, max, i)} ::
      LeastFree(old(root.M), start, max, i) && HasLeaf(old(root.t), i) ==> err == 0
    ensures err != -ENOMEM && old(Minimal(root.t)) ==> Minimal(root.t)
  {
    var iter := new Cursor(start);
    var node, offset;
    id := 0;
    err, node, offset := GetFree(root, iter, max);
    if err != 0 {
      return;
    }
    id := iter.index;
    Commit(root, node, offset, ptr, id);
  }

  lemma StoreIdMinimal(t: Tree<Node>, M: Content<Node>, n: Node, i: nat, k: nat, e: Entry<Node>)
    requires BaseOk(t, M) && t.idr && StorePre(t, M, n, i, k, e) && Busy(t, Some(n)) && HighRoot(t, k)
    ensures Minimal(Store(t, n, i, e))
  {
    StoreBase(t, M, n, i, k, e);
    var t' := Store(t, n, i, e);
    assert CountOk(t.nodes[n], M);
    forall m | m in t'.nodes ensures t'.nodes[m].count > 0 { if m != n { assert t.nodes[m].count > 0; } }
    if t.head.Internal? && t.head.node != n {
      var r, r' := t.nodes[t.head.node], t'.nodes[t.head.node];
      assert r' == r;
    }
    HighIsMinimal(t', M[k := e], k);
  }

  /** In every reachable IDR the IDR_FREE bit of a slot says exactly whether some id below the slot
      is free, and a minimal tree of ids below the limit stays low enough for the next allocation. */
  lemma FreeBitExact(t: Tree<Node>, M: Content<Node>, K: Marks, n: Node, i: nat)
    requires TreeOk(t, M, K) && t.idr && n in t.nodes && i < 64
    ensures RecOk(t.nodes[n])
    ensures i in t.nodes[n].tags[FREE] <==> AnyFree(M, t.nodes[n].shift, 64 * t.nodes[n].prefix + i)
  {
    assert RecOk(t.nodes[n]);
    BitMeaning(t, M, K, n, FREE, i);
    var s, q := t.nodes[n].shift, 64 * t.nodes[n].prefix + i;
    MarkedMeansFree(M, K[FREE], s, q);
  }

  /** Some id of block q of size 2^s is free. */
  ghost predicate AnyFree(M: Content<Node>, s: nat, q: nat) {
    exists id {:trigger Under(id, s, q)} :: id !in M && Under(id, s, q)
  }

  lemma MarkedMeansFree(M: Content<Node>, marks: iset<nat>, s: nat, q: nat)
    requires forall id: nat :: id in marks <==> id !in M
    ensures AnyMarked(marks, s, q) <==> AnyFree(M, s, q)
  {
    if AnyMarked(marks, s, q) {
      var id :| id in marks && Under(id, s, q);
      assert id !in M && Under(id, s, q);
    }
    if id: nat :| id !in M && Under(id, s, q) {
      assert id in marks && Under(id, s, q);
    }
  }

  lemma LowTree(t: Tree<Node>, M: Content<Node>)
    requires BaseOk(t, M) && Minimal(t) && t.idr && forall k :: k in M ==> k < ID_LIMIT
    ensures HeadShift(t) <= 60
  {
    if t.head.Internal? {
      var n := t.head.node;
      assert RecOk(t.nodes[n]);
      if t.nodes[n].shift < 60 { return; }
      var i := NonzeroSlot(t, M);
      assert SlotOk(t.nodes, n, i);
      var c := t.nodes[n].slots[i].node;
      var k := HasKey(t, M, c);
      assert Shr(k, 60) == i;
      LimitShift(k, 60);
    }
  }
}
