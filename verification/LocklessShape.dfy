/** The shape of the tree the writer of Lockless leaves: between operations it is minimal, and no node is forgotten. */
module LocklessShape {
  import opened Words
  import opened TreeHeap
  import opened TreeSteps
  import opened Canonical
  import opened Lockless

  /** What the shape may lack while the writer is at w. */
  ghost predicate Shaped(t: Tree<Id>, w: Writer) {
    match w
    case Idle => Minimal(t)
    case Extending(_, _) => Busy(t, None)
    case Descending(k, _, at, _) => Busy(t, at) && HighRoot(t, k)
    case Trimming(n) => MinimalBut(t, n)
    case Freeing(_, next) => Shaped(t, next)
    case Shrinking => Busy(t, None)
    case Retrying(_) => Busy(t, None)
  }

  /** The node that has left the tree and has yet to be freed. */
  ghost function Pending(w: Writer): set<Id> {
    match w
    case Freeing(n, _) => {n}
    case Retrying(n) => {n}
    case _ => {}
  }

  ghost predicate Tidy(s: State) { Shaped(s.t, s.writer) && s.dead.Keys == s.freed.Keys + Pending(s.writer) }

  lemma TidyLoad(s: State, k: nat, e: Entry<Id>)
    requires s.hist != [] && BaseOk(s.t, Current(s)) && Busy(s.t, None)
    requires s.t.head == Null || Shr(k, HeadShift(s.t)) > 0 || HighRoot(s.t, k)
    ensures Shaped(s.t, AfterLoad(s.t, k, e))
  {
  }

  lemma TidyPublish(s: State, n: Id)
    requires Inv(s) && Tidy(s) && Enabled(s, Publish(n))
    ensures Tidy(Do(s, Publish(n)))
  {
    var s' := Do(s, Publish(n));
    var k := s.writer.k;
    HeadShiftMod(s.t);
    PublishTree(s, n);
    forall m | m in s'.t.nodes ensures s'.t.nodes[m].count > 0 { if m in s.t.nodes { assert s.t.nodes[m].count > 0; } }
    if Shr(k, HeadShift(s'.t)) == 0 { TopDigit(k, HeadShift(s.t)); }
    TidyLoad(s', k, s.writer.e);
  }

  lemma TidyBranch(s: State, n: Id)
    requires Inv(s) && Tidy(s) && Enabled(s, Action.Branch(n))
    ensures Tidy(Do(s, Action.Branch(n)))
  {
    var w := s.writer;
    if w.at.None? {
      TopDigit(w.k, w.shift - 6);
    } else {
      AddChildBusy(s.t, Current(s), w.at.value, Digit(w.k, w.shift), n);
      AddChildHigh(s.t, w.at.value, Digit(w.k, w.shift), n, w.k);
    }
  }

  lemma TidyFollow(s: State)
    requires Inv(s) && Tidy(s) && Enabled(s, Follow)
    ensures Tidy(Do(s, Follow))
  {
    if s.writer.at.Some? { SlotCounts(s.t, Current(s), s.writer.at.value, Digit(s.writer.k, s.writer.shift)); }
  }

  lemma TidyPut(s: State)
    requires Inv(s) && Tidy(s) && Enabled(s, Put)
    ensures Tidy(Do(s, Put))
  {
    var w := s.writer;
    if w.at.Some? {
      var n := w.at.value;
      LeafKey(s.t.nodes[n], w.k);
      assert LeafOk(s.t.nodes[n], Current(s), Digit(w.k, 0));
      StoreMinimal(s.t, Current(s), n, Digit(w.k, 0), w.k, w.e);
    } else {
      assert s.t.nodes == map[];
    }
  }

  lemma TidyRefuse(s: State)
    requires Inv(s) && Tidy(s) && Enabled(s, Refuse)
    ensures Tidy(Do(s, Refuse))
  {
    var w := s.writer;
    SlotShowsMap(s);
    if w.at.Some? {
      OccHas(s.t.nodes[w.at.value], Current(s), w.k);
      assert CountOk(s.t.nodes[w.at.value], Current(s));
      HighIsMinimal(s.t, Current(s), w.k);
    }
  }

  lemma TidyTrim(s: State)
    requires Inv(s) && Tidy(s) && Enabled(s, Trim)
    ensures Tidy(Do(s, Trim))
  {
    var n := s.writer.node;
    Apart(s);
    assert ParentOk(s.t, n);
    if s.t.nodes[n].count != 0 {
      TrimDone(s.t, Current(s), n);
    } else if s.t.nodes[n].parent.Some? {
      ParentFacts(s.t, n, s.t.nodes[n].parent.value);
      UnlinkMinimal(s.t, n);
    }
  }

  lemma TrimDone(t: Tree<Id>, M: Map, n: Id)
    requires BaseOk(t, M) && n in t.nodes && MinimalBut(t, n) && t.nodes[n].count != 0
    ensures Busy(t, None) && (t.head != Internal(n) ==> Minimal(t))
  {
    assert CountOk(t.nodes[n], M);
  }

  lemma TidyShrink(s: State)
    requires Inv(s) && Tidy(s) && Enabled(s, Shrink)
    ensures Tidy(Do(s, Shrink))
  {
    if s.t.head.Internal? {
      var n := s.t.head.node;
      assert RecOk(s.t.nodes[n]) && SlotOk(s.t.nodes, n, 0) && n !in s.dead by { Apart(s); }
      if s.t.nodes[n].count == 1 && s.t.nodes[n].slots[0] != Null { LowerBusy(s.t, {}); }
    }
  }

  lemma TidyInsert(s: State, a: Action)
    requires Inv(s) && Tidy(s) && Enabled(s, a) && Inserts(a)
    ensures Tidy(Do(s, a))
  {
    match a
    case InsertBegin(k, e) =>
      MinimalIsHigh(s.t, Current(s), k);
      TidyLoad(s, k, e);
    case Publish(n) => TidyPublish(s, n);
    case Branch(n) => TidyBranch(s, n);
    case Follow => TidyFollow(s);
    case Put => TidyPut(s);
    case Refuse => TidyRefuse(s);
  }

  lemma TidyErase(s: State, a: Action)
    requires Inv(s) && Tidy(s) && Enabled(s, a) && (a.EraseHead? || a.EraseSlot?)
    ensures Tidy(Do(s, a))
  {
    if a.EraseSlot? { EraseMinimal(s.t, a.n, Digit(a.k, 0)); } else { assert s.t.nodes == map[]; }
  }

  lemma TidyMarkRetry(s: State)
    requires Inv(s) && Tidy(s) && Enabled(s, MarkRetry)
    ensures Tidy(Do(s, MarkRetry))
  {
  }

  lemma TidyFree(s: State)
    requires Inv(s) && Tidy(s) && Enabled(s, Free)
    ensures Tidy(Do(s, Free))
  {
  }

  lemma TidyDelete(s: State, a: Action)
    requires Inv(s) && Tidy(s) && Enabled(s, a) && Deletes(a)
    ensures Tidy(Do(s, a))
  {
    match a
    case EraseHead => TidyErase(s, a);
    case EraseSlot(k, n) => TidyErase(s, a);
    case Trim => TidyTrim(s);
    case Free => TidyFree(s);
    case Shrink => TidyShrink(s);
    case MarkRetry => TidyMarkRetry(s);
  }

  /** The steps of readers and of the reclaimer leave the tree and the writer alone. */
  lemma OthersLeave(s: State, a: Action)
    requires Inv(s) && Enabled(s, a) && !Inserts(a) && !Deletes(a)
    ensures var s' := Do(s, a);
      s'.t == s.t && s'.writer == s.writer && s'.dead == s.dead && s'.freed == s.freed && s'.hist == s.hist
  {
  }

  /** Every step keeps the shape on its way, and every node that leaves the tree on its way to be freed. */
  lemma TidyKept(s: State, a: Action)
    requires Inv(s) && Tidy(s) && Enabled(s, a)
    ensures Tidy(Do(s, a))
  {
    if Inserts(a) { TidyInsert(s, a); } else if Deletes(a) { TidyDelete(s, a); } else { OthersLeave(s, a); }
  }

  lemma {:induction false} TidyRun(run: seq<Action>)
    requires Exec(run).Some?
    ensures Tidy(Exec(run).value)
    decreases |run|
  {
    if run != [] {
      TidyRun(run[..|run| - 1]);
      TidyKept(Exec(run[..|run| - 1]).value, run[|run| - 1]);
    }
  }

  /** In every run, the tree is minimal whenever the writer is between operations: no node is empty, the root is the
      least that will do, and all nodes that have left the tree have been passed to radix_tree_node_free. */
  lemma IdleIsMinimal(run: seq<Action>)
    requires Exec(run).Some? && Exec(run).value.writer == Idle
    ensures var s := Exec(run).value;
      && Minimal(s.t) && s.dead.Keys == s.freed.Keys
      && (s.t.head.Internal? ==> s.t.nodes[s.t.head.node].shift == LeastShift(Current(s), 0))
      && (s.t.nodes == map[] <==> Current(s).Keys <= {0})
  {
    TidyRun(run);
    var s := Exec(run).value;
    if s.t.head.Internal? { LeastHeight(s.t, Current(s)); }
  }
}
