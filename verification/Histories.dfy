/** Sequences of insertions, deletions, tag-sets and tag-clears on one tree: what they do to the map and the marks,
    and that two sequences which come to the same end leave the same tree. */
module Histories {
  import opened Errno
  import opened Words
  import opened TreeHeap
  import opened TreeTags
  import opened Canonical
  import opened RadixTree

  datatype Op =
    | InsertOp(index: nat, item: Entry<Node>)      // radix_tree_insert
    | DeleteOp(index: nat, item: Entry<Node>)      // radix_tree_delete_item; radix_tree_delete passes NULL
    | SetOp(index: nat, tag: nat)                  // radix_tree_tag_set
    | ClearOp(index: nat, tag: nat)                // radix_tree_tag_clear

  /** A map with the indices each tag marks. */
  datatype Abstract = Abstract(M: Content<Node>, K: Marks)

  ghost function NoMarks(): Marks { [iset{}, iset{}, iset{}] }

  ghost function Empty(): Abstract { Abstract(map[], NoMarks()) }

  /** What the callers have to see to: indices in a word, entries that are data, and tags set on present items only. */
  ghost predicate LegalOp(a: Abstract, op: Op) {
    op.index < WORD &&
    match op
    case InsertOp(_, item) => item.Data()
    case DeleteOp(_, _) => true
    case SetOp(index, tag) => index in a.M && tag < MAX_TAGS
    case ClearOp(_, tag) => tag < MAX_TAGS
  }

  ghost function Unmark(K: Marks, k: nat): Marks
    requires |K| == MAX_TAGS
  {
    [K[0] - iset{k}, K[1] - iset{k}, K[2] - iset{k}]
  }

  ghost function DoOp(a: Abstract, op: Op): (b: Abstract)
    requires |a.K| == MAX_TAGS && LegalOp(a, op)
    ensures |b.K| == MAX_TAGS
  {
    match op
    case InsertOp(k, item) => if k in a.M then a else a.(M := a.M[k := item])
    case DeleteOp(k, item) =>
      if k in a.M && (item == Null || a.M[k] == item) then Abstract(a.M - {k}, Unmark(a.K, k)) else a
    case SetOp(k, tag) => a.(K := a.K[tag := a.K[tag] + iset{k}])
    case ClearOp(k, tag) => a.(K := a.K[tag := a.K[tag] - iset{k}])
  }

  /** The map and the marks after a sequence of operations; None if one of them is not legal. */
  ghost function After(a: Abstract, ops: seq<Op>): (o: Option<Abstract>)
    requires |a.K| == MAX_TAGS
    ensures o.Some? ==> |o.value.K| == MAX_TAGS
    decreases |ops|
  {
    if ops == [] then Some(a)
    else
      var p := After(a, ops[..|ops| - 1]);
      if p.Some? && LegalOp(p.value, ops[|ops| - 1]) then Some(DoOp(p.value, ops[|ops| - 1])) else None
  }

  /** A sequence is legal only if all its beginnings are. */
  lemma {:induction false} LegalSoFar(a: Abstract, ops: seq<Op>, n: nat)
    requires |a.K| == MAX_TAGS && n <= |ops| && After(a, ops).Some?
    ensures After(a, ops[..n]).Some?
    decreases |ops|
  {
    if n < |ops| {
      LegalSoFar(a, ops[..|ops| - 1], n);
      assert ops[..|ops| - 1][..n] == ops[..n];
    } else {
      assert ops[..n] == ops;
    }
  }

  lemma Extended(a: Abstract, ops: seq<Op>, n: nat)
    requires |a.K| == MAX_TAGS && n < |ops| && After(a, ops).Some?
    ensures After(a, ops[..n]).Some? && LegalOp(After(a, ops[..n]).value, ops[n])
    ensures After(a, ops[..n + 1]) == Some(DoOp(After(a, ops[..n]).value, ops[n]))
  {
    LegalSoFar(a, ops, n);
    LegalSoFar(a, ops, n + 1);
    assert ops[..n + 1][..n] == ops[..n];
  }

  // ---------------------------------------------------------------- what a history comes to

  /** The map and the marks before operation i. */
  ghost function Before(a: Abstract, ops: seq<Op>, i: nat): Abstract
    requires |a.K| == MAX_TAGS && i < |ops| && After(a, ops).Some?
  {
    LegalSoFar(a, ops, i);
    After(a, ops[..i]).value
  }

  /** Operation i binds k to e: an insertion of e at k, which is not refused. */
  ghost predicate Binds(a: Abstract, ops: seq<Op>, i: nat, k: nat, e: Entry<Node>)
    requires |a.K| == MAX_TAGS && i < |ops| && After(a, ops).Some?
  {
    ops[i] == InsertOp(k, e) && k !in Before(a, ops, i).M
  }

  /** Operation j asks for the deletion of k if it holds e. */
  predicate Unbinds(ops: seq<Op>, j: nat, k: nat, e: Entry<Node>)
    requires j < |ops|
  {
    ops[j] == DeleteOp(k, Null) || ops[j] == DeleteOp(k, e)
  }

  ghost predicate LastBinding(a: Abstract, ops: seq<Op>, i: nat, k: nat, e: Entry<Node>)
    requires |a.K| == MAX_TAGS && After(a, ops).Some?
  {
    i < |ops| && Binds(a, ops, i, k, e) && NeverUnbound(ops, i, k, e)
  }

  ghost predicate NeverUnbound(ops: seq<Op>, i: nat, k: nat, e: Entry<Node>) {
    forall j: nat {:trigger Unbinds(ops, j, k, e)} :: i < j < |ops| ==> !Unbinds(ops, j, k, e)
  }

  lemma UnboundStep(ops: seq<Op>, i: nat, k: nat, e: Entry<Node>)
    requires i < |ops| - 1
    ensures NeverUnbound(ops, i, k, e) <==>
      NeverUnbound(ops[..|ops| - 1], i, k, e) && !Unbinds(ops, |ops| - 1, k, e)
  {
    var less := ops[..|ops| - 1];
    forall j: nat {:trigger Unbinds(ops, j, k, e)} {:trigger Unbinds(less, j, k, e)} | i < j < |ops| - 1
      ensures Unbinds(less, j, k, e) <==> Unbinds(ops, j, k, e)
    {
    }
  }

  /** At the end of a history of an empty tree, k holds e exactly if an insertion bound it to e and no deletion after
      it matched. */
  lemma {:induction false} HeldIsLastBound(ops: seq<Op>, k: nat, e: Entry<Node>)
    requires After(Empty(), ops).Some?
    ensures Holds(ops, k, e)
      <==> exists i: nat {:trigger LastBinding(Empty(), ops, i, k, e)} :: LastBinding(Empty(), ops, i, k, e)
    decreases |ops|
  {
    if ops != [] {
      var n := |ops| - 1;
      var less := ops[..n];
      HeldIsLastBound(less, k, e);
      forall i: nat {:trigger LastBinding(Empty(), ops, i, k, e)} {:trigger LastBinding(Empty(), less, i, k, e)}
        | i < n
        ensures LastBinding(Empty(), ops, i, k, e) <==>
          LastBinding(Empty(), less, i, k, e) && !Unbinds(ops, n, k, e)
      {
        BindingStays(ops, i, k, e);
      }
      HeldStep(Before(Empty(), ops, n), ops[n], k, e);
      assert Holds(ops, k, e) <==> (Holds(less, k, e) && !Unbinds(ops, n, k, e)) || Binds(Empty(), ops, n, k, e);
      assert LastBinding(Empty(), ops, n, k, e) <==> Binds(Empty(), ops, n, k, e);
    }
  }

  ghost predicate Holds(ops: seq<Op>, k: nat, e: Entry<Node>)
    requires After(Empty(), ops).Some?
  {
    k in After(Empty(), ops).value.M && After(Empty(), ops).value.M[k] == e
  }

  /** What an operation does to what k holds. */
  lemma HeldStep(a: Abstract, op: Op, k: nat, e: Entry<Node>)
    requires |a.K| == MAX_TAGS && LegalOp(a, op)
    ensures var M, M' := a.M, DoOp(a, op).M;
      (k in M' && M'[k] == e) <==>
        || (k in M && M[k] == e && op != DeleteOp(k, Null) && op != DeleteOp(k, e))
        || (op == InsertOp(k, e) && k !in M)
  {
  }

  lemma BindingStays(ops: seq<Op>, i: nat, k: nat, e: Entry<Node>)
    requires After(Empty(), ops).Some? && i < |ops| - 1
    ensures After(Empty(), ops[..|ops| - 1]).Some?
    ensures LastBinding(Empty(), ops, i, k, e) <==>
      LastBinding(Empty(), ops[..|ops| - 1], i, k, e) && !Unbinds(ops, |ops| - 1, k, e)
  {
    var less := ops[..|ops| - 1];
    assert less[..i] == ops[..i] && less[i] == ops[i];
    UnboundStep(ops, i, k, e);
  }

  /** Operation j takes the mark g off k: it clears it, or it deletes what k holds. */
  ghost predicate Unmarks(ops: seq<Op>, j: nat, k: nat, g: nat)
    requires After(Empty(), ops).Some? && j < |ops|
  {
    || ops[j] == ClearOp(k, g)
    || (ops[j].DeleteOp? && ops[j].index == k && k in Before(Empty(), ops, j).M
        && (ops[j].item == Null || ops[j].item == Before(Empty(), ops, j).M[k]))
  }

  ghost predicate LastMark(ops: seq<Op>, i: nat, k: nat, g: nat)
    requires After(Empty(), ops).Some?
  {
    i < |ops| && ops[i] == SetOp(k, g) && NeverUnmarked(ops, i, k, g)
  }

  ghost predicate NeverUnmarked(ops: seq<Op>, i: nat, k: nat, g: nat)
    requires After(Empty(), ops).Some?
  {
    forall j: nat {:trigger Unmarks(ops, j, k, g)} :: i < j < |ops| ==> !Unmarks(ops, j, k, g)
  }

  /** At the end of a history of an empty tree, k carries the tag g exactly if it was set at k, and neither a tag-clear
      nor a deletion of k came after it. */
  lemma {:induction false} MarkedIsLastSet(ops: seq<Op>, k: nat, g: nat)
    requires After(Empty(), ops).Some? && g < MAX_TAGS
    ensures k in After(Empty(), ops).value.K[g]
      <==> exists i: nat {:trigger LastMark(ops, i, k, g)} :: LastMark(ops, i, k, g)
    decreases |ops|
  {
    if ops != [] {
      var n := |ops| - 1;
      var less := ops[..n];
      MarkedIsLastSet(less, k, g);
      forall i: nat {:trigger LastMark(ops, i, k, g)} {:trigger LastMark(less, i, k, g)} | i < n
        ensures LastMark(ops, i, k, g) <==> LastMark(less, i, k, g) && !Unmarks(ops, n, k, g)
      {
        MarkStays(ops, i, k, g);
      }
      MarkStep(Before(Empty(), ops, n), ops[n], k, g);
      assert k in After(Empty(), ops).value.K[g] <==>
        (k in After(Empty(), less).value.K[g] && !Unmarks(ops, n, k, g)) || ops[n] == SetOp(k, g);
      assert LastMark(ops, n, k, g) <==> ops[n] == SetOp(k, g);
    }
  }

  /** What an operation does to a mark of k. */
  lemma MarkStep(a: Abstract, op: Op, k: nat, g: nat)
    requires |a.K| == MAX_TAGS && LegalOp(a, op) && g < MAX_TAGS
    ensures k in DoOp(a, op).K[g] <==>
      || (k in a.K[g] && op != ClearOp(k, g) &&
          !(op.DeleteOp? && op.index == k && k in a.M && (op.item == Null || op.item == a.M[k])))
      || op == SetOp(k, g)
  {
  }

  lemma UnmarksSame(ops: seq<Op>, j: nat, k: nat, g: nat)
    requires After(Empty(), ops).Some? && j < |ops| - 1
    ensures After(Empty(), ops[..|ops| - 1]).Some?
    ensures Unmarks(ops[..|ops| - 1], j, k, g) <==> Unmarks(ops, j, k, g)
  {
    assert ops[..|ops| - 1][..j] == ops[..j] && ops[..|ops| - 1][j] == ops[j];
  }

  lemma MarkStays(ops: seq<Op>, i: nat, k: nat, g: nat)
    requires After(Empty(), ops).Some? && i < |ops| - 1
    ensures After(Empty(), ops[..|ops| - 1]).Some?
    ensures LastMark(ops, i, k, g) <==> LastMark(ops[..|ops| - 1], i, k, g) && !Unmarks(ops, |ops| - 1, k, g)
  {
    UnmarksSame(ops, i, k, g);
    UnmarkedLess(ops, i, k, g);
    UnmarkedMore(ops, i, k, g);
  }

  lemma UnmarkedLess(ops: seq<Op>, i: nat, k: nat, g: nat)
    requires i < |ops| - 1 && After(Empty(), ops).Some? && After(Empty(), ops[..|ops| - 1]).Some?
    ensures NeverUnmarked(ops, i, k, g) ==>
      NeverUnmarked(ops[..|ops| - 1], i, k, g) && !Unmarks(ops, |ops| - 1, k, g)
  {
    var less := ops[..|ops| - 1];
    if NeverUnmarked(ops, i, k, g) {
      forall j: nat {:trigger Unmarks(less, j, k, g)} | i < j < |less| ensures !Unmarks(less, j, k, g) {
        UnmarksSame(ops, j, k, g);
      }
    }
  }

  lemma UnmarkedMore(ops: seq<Op>, i: nat, k: nat, g: nat)
    requires i < |ops| - 1 && After(Empty(), ops).Some? && After(Empty(), ops[..|ops| - 1]).Some?
    ensures NeverUnmarked(ops[..|ops| - 1], i, k, g) && !Unmarks(ops, |ops| - 1, k, g) ==>
      NeverUnmarked(ops, i, k, g)
  {
    var less := ops[..|ops| - 1];
    if NeverUnmarked(less, i, k, g) && !Unmarks(ops, |ops| - 1, k, g) {
      forall j: nat {:trigger Unmarks(ops, j, k, g)} | i < j < |ops| ensures !Unmarks(ops, j, k, g) {
        if j < |less| { UnmarksSame(ops, j, k, g); }
      }
    }
  }

  /** Operations on different indices commute. */
  lemma Commute(a: Abstract, x: Op, y: Op)
    requires |a.K| == MAX_TAGS && x.index != y.index && LegalOp(a, x) && LegalOp(DoOp(a, x), y)
    ensures LegalOp(a, y) && LegalOp(DoOp(a, y), x) && DoOp(DoOp(a, y), x) == DoOp(DoOp(a, x), y)
  {
    var b, c := DoOp(DoOp(a, x), y), DoOp(DoOp(a, y), x);
    CommuteMap(a, x, y);
    CommuteMarks(a, x, y);
    assert |b.K| == |c.K| == 3 && b.K == [b.K[0], b.K[1], b.K[2]] && c.K == [c.K[0], c.K[1], c.K[2]];
  }

  lemma CommuteMap(a: Abstract, x: Op, y: Op)
    requires |a.K| == MAX_TAGS && x.index != y.index && LegalOp(a, x) && LegalOp(DoOp(a, x), y)
    ensures LegalOp(a, y) && LegalOp(DoOp(a, y), x) && DoOp(DoOp(a, y), x).M == DoOp(DoOp(a, x), y).M
  {
  }

  lemma CommuteMarks(a: Abstract, x: Op, y: Op)
    requires |a.K| == MAX_TAGS && x.index != y.index && LegalOp(a, x) && LegalOp(DoOp(a, x), y)
    requires LegalOp(a, y) && LegalOp(DoOp(a, y), x)
    ensures forall g :: 0 <= g < MAX_TAGS ==> DoOp(DoOp(a, y), x).K[g] == DoOp(DoOp(a, x), y).K[g]
  {
  }

  /** The last operation of a history. */
  lemma AfterLast(a: Abstract, ops: seq<Op>, op: Op)
    requires |a.K| == MAX_TAGS
    ensures var p := After(a, ops);
      After(a, ops + [op]) == if p.Some? && LegalOp(p.value, op) then Some(DoOp(p.value, op)) else None
  {
    assert (ops + [op])[..|ops|] == ops;
  }

  lemma SwapTwo(a: Abstract, before: seq<Op>, x: Op, y: Op)
    requires |a.K| == MAX_TAGS && x.index != y.index && After(a, before + [x] + [y]).Some?
    ensures After(a, before + [y] + [x]) == After(a, before + [x] + [y])
  {
    AfterLast(a, before, x);
    AfterLast(a, before + [x], y);
    AfterLast(a, before, y);
    AfterLast(a, before + [y], x);
    Commute(After(a, before).value, x, y);
  }

  /** So swapping two such neighbours anywhere in a history changes nothing at its end. */
  lemma {:induction false} SwapNeighbours(a: Abstract, before: seq<Op>, x: Op, y: Op, after: seq<Op>)
    requires |a.K| == MAX_TAGS && x.index != y.index && After(a, before + [x, y] + after).Some?
    ensures After(a, before + [y, x] + after) == After(a, before + [x, y] + after)
    decreases |after|
  {
    if after == [] {
      assert before + [x, y] + after == before + [x] + [y] && before + [y, x] + after == before + [y] + [x];
      SwapTwo(a, before, x, y);
    } else {
      var less, last := after[..|after| - 1], after[|after| - 1];
      assert before + [x, y] + after == before + [x, y] + less + [last];
      assert before + [y, x] + after == before + [y, x] + less + [last];
      AfterLast(a, before + [x, y] + less, last);
      AfterLast(a, before + [y, x] + less, last);
      SwapNeighbours(a, before, x, y, less);
    }
  }

  /** One operation. An insertion is made with a full pool behind it. */
  method Perform(root: Root, op: Op, ghost a: Abstract)
    requires root.Valid() && !root.idr && a == Abstract(root.M, root.K) && LegalOp(a, op)
    requires op.InsertOp? ==> root.pool.nr >= PRELOAD_SIZE
    modifies root, root.pool, root.t.nodes.Keys
    ensures root.Valid() && Abstract(root.M, root.K) == DoOp(a, op)
    ensures root.pool.failures == old(root.pool.failures)
    ensures forall n :: n in root.t.nodes ==> n in old(root.t).nodes || fresh(n)
  {
    match op {
      case InsertOp(k, item) => var _ := root.Insert(k, item);
      case DeleteOp(k, item) => var _ := root.DeleteItem(k, item);
      case SetOp(k, tag) => var _ := root.TagSet(k, tag);
      case ClearOp(k, tag) => var _ := root.TagClear(k, tag);
    }
  }

  /** The operations one after the other, each insertion behind a radix_tree_preload, up to the first preload that
      fails. */
  method Replay(root: Root, ops: seq<Op>) returns (n: nat, err: int)
    requires root.Valid() && !root.idr && After(Abstract(root.M, root.K), ops).Some?
    modifies root, root.pool, root.t.nodes.Keys
    ensures root.Valid() && n <= |ops| && (err == 0 <==> n == |ops|) && (err == 0 || err == -ENOMEM)
    ensures root.pool.failures == old(root.pool.failures) + if err == 0 then 0 else 1
    ensures forall x :: x in root.t.nodes ==> x in old(root.t).nodes || fresh(x)
    ensures Some(Abstract(root.M, root.K)) == After(old(Abstract(root.M, root.K)), ops[..n])
  {
    ghost var a := Abstract(root.M, root.K);
    n, err := 0, 0;
    while n < |ops|
      invariant root.Valid() && n <= |ops| && err == 0 && root.pool.failures == old(root.pool.failures)
      invariant Some(Abstract(root.M, root.K)) == After(a, ops[..n])
      invariant forall x :: x in root.t.nodes ==> x in old(root.t).nodes || fresh(x)
    {
      Extended(a, ops, n);
      if ops[n].InsertOp? {
        err := root.pool.Fill(PRELOAD_SIZE);
        if err != 0 { return; }
      }
      Perform(root, ops[n], Abstract(root.M, root.K));
      n := n + 1;
    }
    assert ops[..n] == ops;
  }

  /** A history of an empty tree. */
  method FromEmpty(pool: Preload, ops: seq<Op>) returns (x: Root, err: int)
    requires After(Empty(), ops).Some?
    modifies pool
    ensures fresh(x) && (forall n :: n in x.t.nodes ==> fresh(n)) && x.pool == pool && !x.idr && x.Valid()
    ensures err == 0 ==> Some(Abstract(x.M, x.K)) == After(Empty(), ops)
    ensures pool.failures == old(pool.failures) + if err == 0 then 0 else 1
  {
    var n;
    x := new Root(false, pool);
    n, err := Replay(x, ops);
    assert n == |ops| ==> ops[..n] == ops;
  }

  /** Two histories of an empty tree that come to the same map and marks leave the same tree: the same nodes in the
      same places with the same counts and the same tag bits, and the same root tags. */
  method SameEnd(pool: Preload, ops1: seq<Op>, ops2: seq<Op>) returns (x: Root, y: Root, err: int)
    requires After(Empty(), ops1).Some? && After(Empty(), ops1) == After(Empty(), ops2)
    modifies pool
    ensures x.Valid() && y.Valid()
    ensures err == 0 ==> Some(Abstract(x.M, x.K)) == Some(Abstract(y.M, y.K)) == After(Empty(), ops1)
    ensures err == 0 ==> Picture(x.t.nodes, x.head) == Picture(y.t.nodes, y.head)
    ensures err == 0 ==> x.rootTags * {0, 1, 2} == y.rootTags * {0, 1, 2}
    ensures pool.failures == old(pool.failures) ==> err == 0
  {
    x, err := FromEmpty(pool, ops1);
    var err2;
    y, err2 := FromEmpty(pool, ops2);
    err := if err == 0 then err2 else err;
    if err == 0 { HistoryIndependence(x.t, y.t, x.M, x.K); }
  }
}
