/** idr_destroy and the walk of radix_tree_free_nodes, which finds its way by parent and offset fields alone. */
module Destroy {
  import opened Words
  import opened TreeHeap
  import opened TreeSteps
  import opened TreeTags
  import opened RadixTree

  // ---------------------------------------------------------------- the last index of a node

  ghost function End(r: Rec<Node>): nat { First(r.shift + 6, r.prefix + 1) }

  ghost function Last(r: Rec<Node>): (k: nat)
    ensures k + 1 == End(r)
  {
    MulMono(1, r.prefix + 1, Pow2(r.shift + 6));
    End(r) - 1
  }

  lemma LastCovered(r: Rec<Node>)
    ensures Covers(r, Last(r))
  {
    FirstBelow(Last(r), r.shift + 6, r.prefix + 1);
    FirstBelow(Last(r), r.shift + 6, r.prefix);
    assert (r.prefix + 1) * Pow2(r.shift + 6) == r.prefix * Pow2(r.shift + 6) + Pow2(r.shift + 6);
  }

  /** A node ends where a block of any smaller size ends. */
  lemma {:induction false} EndAt(s: nat, S: nat, q: nat) returns (x: nat)
    requires s % 6 == 0 && S % 6 == 0 && s <= S && q > 0
    ensures First(S, q) == First(s, x) && x > 0
    decreases S - s
  {
    if s == S { x := q; } else {
      FirstUp(S - 6, q);
      x := EndAt(s, S - 6, 64 * q);
    }
  }

  lemma FirstMono(s: nat, a: nat, b: nat)
    ensures a <= b ==> First(s, a) <= First(s, b)
    ensures a < b ==> First(s, a) < First(s, b)
  {
    if a <= b { MulMono(a, b, Pow2(s)); }
    if a < b {
      MulMono(a + 1, b, Pow2(s));
      assert (a + 1) * Pow2(s) == a * Pow2(s) + Pow2(s);
    }
  }

  /** A larger block that ends in a smaller one, or with it, ends with it, and that one is the last of its 64. */
  lemma BlockBetween(s: nat, S: nat, q: nat, a: nat)
    requires s % 6 == 0 && S % 6 == 0 && s <= S && q > 0 && First(s, a) < First(S + 6, q) <= First(s, a + 1)
    ensures First(S + 6, q) == First(s, a + 1) && (a + 1) % 64 == 0
  {
    var x := EndAt(s + 6, S + 6, q);
    FirstUp(s, x);
    FirstMono(s, 64 * x, a);
    FirstMono(s, a + 1, 64 * x);
  }

  // ---------------------------------------------------------------- what is freed so far

  /** The index behind slot offset - 1 of a node. */
  ghost function Cursor(r: Rec<Node>, offset: nat): nat { First(r.shift, 64 * r.prefix + offset) }

  /** n ends before the cursor c, or at it below shift s. */
  ghost predicate Passed(r: Rec<Node>, c: nat, s: nat) { End(r) < c || (End(r) == c && r.shift < s) }

  ghost predicate FreedIs(t: Tree<Node>, freed: set<Node>, c: nat, s: nat) {
    && freed <= t.nodes.Keys
    && forall n {:trigger n in freed} {:trigger t.nodes[n]} :: n in t.nodes ==>
      (n in freed <==> Passed(t.nodes[n], c, s))
  }

  /** Going down does not move the cursor, and no node ends at it. */
  lemma DownStep(t: Tree<Node>, n: Node, offset: nat, freed: set<Node>)
    requires Shape(t) && n in t.nodes && RecOk(t.nodes[n]) && offset < 64 && t.nodes[n].slots[offset].Internal?
    requires FreedIs(t, freed, Cursor(t.nodes[n], offset), 66)
    ensures var m := t.nodes[n].slots[offset].node;
      m in t.nodes && RecOk(t.nodes[m]) && Cursor(t.nodes[m], 0) == Cursor(t.nodes[n], offset) &&
        t.nodes[m].shift < t.nodes[n].shift && m !in freed
  {
    assert SlotOk(t.nodes, n, offset);
    var m := t.nodes[n].slots[offset].node;
    assert RecOk(t.nodes[m]);
    FirstUp(t.nodes[m].shift, t.nodes[m].prefix);
    LastAfter(t.nodes[m], 0);
  }

  /** A node ends behind all its slots but the last, and there at the last. */
  lemma LastAfter(r: Rec<Node>, offset: nat)
    requires offset <= 64
    ensures Cursor(r, 64) == End(r)
    ensures offset < 64 ==> Cursor(r, offset) < Cursor(r, offset + 1) <= End(r)
  {
    FirstUp(r.shift, r.prefix + 1);
    if offset < 64 {
      assert (64 * r.prefix + offset + 1) * Pow2(r.shift) == (64 * r.prefix + offset) * Pow2(r.shift) + Pow2(r.shift);
      MulMono(64 * r.prefix + offset + 1, 64 * r.prefix + 64, Pow2(r.shift));
    }
  }

  /** A node that ends inside or with the block behind slot `offset` of n, which has no child there, ends with n. */
  lemma OverNode(t: Tree<Node>, n: Node, offset: nat, m: Node)
    requires Shape(t) && n in t.nodes && RecOk(t.nodes[n]) && offset < 64 && m in t.nodes
    requires t.nodes[n].slots[offset].Internal? ==> t.nodes[n].shift == 0
    requires Cursor(t.nodes[n], offset) < End(t.nodes[m]) <= Cursor(t.nodes[n], offset + 1)
    ensures offset == 63 && End(t.nodes[m]) == Cursor(t.nodes[n], 64) && t.nodes[m].shift >= t.nodes[n].shift
  {
    var r, k := t.nodes[n], Last(t.nodes[m]);
    assert RecOk(t.nodes[m]);
    if t.nodes[m].shift < r.shift {
      LastCovered(t.nodes[m]);
      FirstBelow(k, r.shift, 64 * r.prefix + offset);
      FirstBelow(k, r.shift, 64 * r.prefix + offset + 1);
      assert Shr(k, r.shift) == 64 * r.prefix + offset && Shr(k, r.shift + 6) == r.prefix;
      PathInternal(t, m, n, k);
    } else {
      BlockBetween(r.shift, t.nodes[m].shift, t.nodes[m].prefix + 1, 64 * r.prefix + offset);
    }
  }

  /** Going past a slot without a child passes no node but those that end with the last slot. */
  lemma OverStep(t: Tree<Node>, n: Node, offset: nat, freed: set<Node>)
    requires Shape(t) && n in t.nodes && RecOk(t.nodes[n]) && offset < 64
    requires t.nodes[n].slots[offset].Internal? ==> t.nodes[n].shift == 0
    requires FreedIs(t, freed, Cursor(t.nodes[n], offset), 66)
    ensures FreedIs(t, freed, Cursor(t.nodes[n], offset + 1), if offset < 63 then 66 else t.nodes[n].shift)
  {
    var r := t.nodes[n];
    var c, c' := Cursor(r, offset), Cursor(r, offset + 1);
    LastAfter(r, offset);
    forall m | m in t.nodes ensures m in freed <==> Passed(t.nodes[m], c', if offset < 63 then 66 else r.shift) {
      assert RecOk(t.nodes[m]);
      if c < End(t.nodes[m]) <= c' { OverNode(t, n, offset, m); }
    }
  }

  /** Going up from a node behind its last slot frees it, and moves the cursor to the slot behind the node's. */
  lemma UpStep(t: Tree<Node>, n: Node, p: Node, freed: set<Node>)
    requires Shape(t) && n in t.nodes && t.nodes[n].parent == Some(p)
    requires FreedIs(t, freed, Cursor(t.nodes[n], 64), t.nodes[n].shift)
    ensures p in t.nodes && RecOk(t.nodes[p]) && t.nodes[p].shift > t.nodes[n].shift && n !in freed &&
      t.nodes[n].offset < 64
    ensures Cursor(t.nodes[p], t.nodes[n].offset + 1) == Cursor(t.nodes[n], 64)
    ensures FreedIs(t, freed + {n}, Cursor(t.nodes[n], 64), t.nodes[p].shift)
  {
    var r := t.nodes[n];
    ParentFacts(t, n, p);
    LastAfter(r, 64);
    forall m | m in t.nodes ensures m in freed + {n} <==> Passed(t.nodes[m], End(r), r.shift + 6) {
      assert RecOk(t.nodes[m]);
      if End(t.nodes[m]) == End(r) && r.shift <= t.nodes[m].shift < r.shift + 6 {
        LastStep(r.shift, t.nodes[m].shift);
        SameEnd(t, m, n);
      }
    }
  }

  lemma SameEnd(t: Tree<Node>, m: Node, n: Node)
    requires Shape(t) && m in t.nodes && n in t.nodes && t.nodes[m].shift == t.nodes[n].shift &&
      End(t.nodes[m]) == End(t.nodes[n])
    ensures m == n
  {
    FirstMono(t.nodes[n].shift + 6, t.nodes[m].prefix + 1, t.nodes[n].prefix + 1);
    FirstMono(t.nodes[n].shift + 6, t.nodes[n].prefix + 1, t.nodes[m].prefix + 1);
    Unique(t, m, n);
  }

  /** Behind the last slot of the root, all the other nodes are freed. */
  lemma TopStep(t: Tree<Node>, freed: set<Node>)
    requires Shape(t) && t.head.Internal? && t.head.node in t.nodes
    requires FreedIs(t, freed, Cursor(t.nodes[t.head.node], 64), t.nodes[t.head.node].shift)
    ensures t.head.node !in freed && freed + {t.head.node} == t.nodes.Keys
  {
    var n := t.head.node;
    LastAfter(t.nodes[n], 64);
    forall m | m in t.nodes ensures m in freed + {n} {
      RootTop(t, m);
      if m != n {
        LastCovered(t.nodes[m]);
        RootCovers(t, m, Last(t.nodes[m]));
        FirstBelow(Last(t.nodes[m]), t.nodes[n].shift + 6, t.nodes[n].prefix + 1);
      }
    }
  }

  /** The walk starts at the first slot of the root, where no node ends. */
  lemma WalkStart(t: Tree<Node>)
    requires Shape(t) && t.head.Internal?
    ensures var n := t.head.node; n in t.nodes && FreedIs(t, {}, Cursor(t.nodes[n], 0), 66)
  {
    forall m | m in t.nodes ensures End(t.nodes[m]) > 0 { assert Last(t.nodes[m]) >= 0; }
  }

  /** No slot of any node lies behind the end of the root. */
  lemma InRoot(t: Tree<Node>, n: Node, offset: nat)
    requires Shape(t) && n in t.nodes && offset <= 64
    ensures t.head.Internal? && t.head.node in t.nodes && Cursor(t.nodes[n], offset) <= End(t.nodes[t.head.node])
  {
    LastAfter(t.nodes[n], offset);
    LastCovered(t.nodes[n]);
    RootCovers(t, n, Last(t.nodes[n]));
    FirstBelow(Last(t.nodes[n]), t.nodes[t.head.node].shift + 6, t.nodes[t.head.node].prefix + 1);
    FirstMono(t.nodes[n].shift, 64 * t.nodes[n].prefix + offset, 64 * t.nodes[n].prefix + 64);
  }

  /** No node as large as n ends inside n. */
  lemma InsideStep(t: Tree<Node>, n: Node, offset: nat, freed: set<Node>)
    requires Shape(t) && n in t.nodes && RecOk(t.nodes[n]) && 0 < offset < 64
    requires FreedIs(t, freed, Cursor(t.nodes[n], offset), t.nodes[n].shift)
    ensures FreedIs(t, freed, Cursor(t.nodes[n], offset), 66)
  {
    var r := t.nodes[n];
    forall m | m in t.nodes ensures m in freed <==> Passed(t.nodes[m], Cursor(r, offset), 66) {
      assert RecOk(t.nodes[m]);
      if t.nodes[m].shift >= r.shift && End(t.nodes[m]) == Cursor(r, offset) {
        FirstMono(r.shift, 64 * r.prefix + offset - 1, 64 * r.prefix + offset);
        BlockBetween(r.shift, t.nodes[m].shift, t.nodes[m].prefix + 1, 64 * r.prefix + offset - 1);
        assert false;
      }
    }
  }

  // ---------------------------------------------------------------- the walk

  /** The walk is before slot `offset` of child, or behind its last one. */
  ghost predicate Walking(t: Tree<Node>, child: Node, offset: nat, freed: set<Node>) {
    && Shape(t) && child in t.nodes && RecOk(t.nodes[child]) && offset <= 64 && child !in freed
    && FreedIs(t, freed, Cursor(t.nodes[child], offset), if offset < 64 then 66 else t.nodes[child].shift)
  }

  lemma ClimbStep(t: Tree<Node>, n: Node, p: Node, freed: set<Node>)
    requires Walking(t, n, 64, freed) && t.nodes[n].parent == Some(p)
    ensures Walking(t, p, t.nodes[n].offset + 1, freed + {n})
    ensures t.nodes[p].shift > t.nodes[n].shift && Cursor(t.nodes[p], t.nodes[n].offset + 1) == Cursor(t.nodes[n], 64)
  {
    UpStep(t, n, p, freed);
    if t.nodes[n].offset < 63 { InsideStep(t, p, t.nodes[n].offset + 1, freed + {n}); }
    LastAfter(t.nodes[p], t.nodes[n].offset + 1);
  }

  /** radix_tree_node_free: once for each node. */
  method NodeFree(root: Root, node: Node)
    requires node !in root.freed
    modifies root`freed
    ensures root.freed == old(root.freed) + {node}
  {
    root.freed := root.freed + {node};
  }

  /** The inner loop: nodes whose slots are all behind the walk are freed. */
  method FreeFinished(root: Root, node: Node, child: Node, ghost freed: set<Node>, ghost before: set<Node>)
    returns (next: Node, offset: nat, done: bool, ghost freed': set<Node>)
    requires root.Linked() && root.head == Internal(node) && Walking(root.t, child, 64, freed)
    requires root.freed == before + freed && before !! root.t.nodes.Keys
    modifies root`freed
    ensures root.freed == before + freed' && root.Linked()
    ensures done ==> freed' == root.t.nodes.Keys
    ensures !done ==> offset < 64 && Walking(root.t, next, offset, freed')
    ensures !done ==> Cursor(root.t.nodes[next], offset) == Cursor(root.t.nodes[child], 64)
  {
    ghost var t := root.t;
    next, offset, done, freed' := child, 64, false, freed;
    while offset == 64
      invariant Walking(t, next, offset, freed') && root.freed == before + freed'
      invariant Cursor(t.nodes[next], offset) == Cursor(t.nodes[child], 64)
      decreases 60 - t.nodes[next].shift
    {
      assert next.View() == t.nodes[next];
      var above, parent := root.At(next).offset, root.At(next).parent;
      NodeFree(root, next);
      if next == node {
        TopStep(t, freed');
        freed', done := freed' + {next}, true;
        return;
      }
      assert ParentOk(t, next);
      ClimbStep(t, next, parent, freed');
      freed' := freed' + {next};
      next, offset := parent, above + 1;
    }
  }

  /** radix_tree_free_nodes from the root's node: every node is freed, each once, and none is read once it is freed. */
  method FreeNodes(root: Root)
    requires root.Coupled() && Shape(root.t) && root.head.Internal?
    modifies root`freed
    ensures root.freed == old(root.freed) + root.t.nodes.Keys
  {
    ghost var t, before := root.t, root.freed;
    ghost var freed: set<Node> := {};
    WalkStart(t);
    var node := root.head.node;
    var child: Node, offset: nat := node, 0;
    assert RecOk(t.nodes[child]);
    while true
      invariant Walking(t, child, offset, freed) && offset < 64 && root.freed == before + freed && root.Linked()
      decreases End(t.nodes[node]) - Cursor(t.nodes[child], offset), child.shift
    {
      assert child.View() == t.nodes[child];
      var entry := root.At(child).slots[offset];
      InRoot(t, child, offset);
      if entry.Internal? && root.At(child).shift > 0 {
        DownStep(t, child, offset, freed);
        child, offset := entry.node, 0;
        assert child.View() == t.nodes[child];
        continue;
      }
      LastAfter(t.nodes[child], offset);
      OverStep(t, child, offset, freed);
      offset := offset + 1;
      if offset == 64 {
        var done;
        child, offset, done, freed := FreeFinished(root, node, child, freed, before);
        if done { return; }
        InRoot(t, child, offset);
      }
    }
  }

  /** idr_destroy: the nodes are freed, and what is left is an empty allocator. */
  method IdrDestroy(root: Root)
    requires root.Ok() && root.idr
    modifies root
    ensures root.freed == old(root.freed) + old(root.t).nodes.Keys
    ensures root.Valid() && root.M == map[] && root.t.nodes == map[]
  {
    IdrRootTags(root.t, root.M, root.K);
    if root.head.Internal? { FreeNodes(root); }
    root.head := Null;
    root.rootTags := root.rootTags + {FREE};
    root.t, root.M := Tree(Null, map[], root.rootTags, true), map[];
    root.K := [iset k: nat | k !in root.M, iset{}, iset{}];
    forall g | 0 <= g < MAX_TAGS ensures RootBitOk(root.t, root.K, g) { }
  }
}
