/** Lockless lookup against one writer, as a transition system: every pointer store of the writer and
    every pointer load of a reader is one step. The writer takes the steps of TreeSteps; a node that
    leaves the tree stays readable until the readers that may have seen it are gone. */
module Lockless {
  import opened Words
  import opened TreeHeap
  import opened TreeSteps

  type Id = nat
  type Map = Content<Id>

  /** Where a reader's `__radix_tree_lookup` stands. */
  datatype Place = Top | In(node: Id) | Done(result: Entry<Id>, end: nat)
  datatype Reader = Reader(index: nat, start: nat, place: Place)

  /** What the writer does next. */
  datatype Writer =
    | Idle
    | Extending(k: nat, e: Entry<Id>)                                 // radix_tree_extend: publish a new root
    | Descending(k: nat, e: Entry<Id>, at: Option<Id>, shift: nat)    // __radix_tree_create: at a slot of this shift
    | Trimming(node: Id)                                              // delete_node: at this node
    | Freeing(node: Id, next: Writer)                                 // radix_tree_node_free
    | Shrinking                                                       // radix_tree_shrink: top of its loop
    | Retrying(node: Id)                                              // radix_tree_shrink: RETRY still to store

  datatype State = State(
    t: Tree<Id>,                  // the tree as reachable from the root
    dead: Heap<Id>,               // nodes taken out of it, as they can still be read
    detached: map<Id, nat>,       // when each left the tree
    freed: map<Id, nat>,          // when each was passed to radix_tree_node_free
    reclaimed: set<Id>,           // memory gone
    writer: Writer,
    hist: seq<Map>,               // the contents at each moment; the last is now
    readers: map<nat, Reader>)

  ghost function Now(s: State): nat
    requires s.hist != []
  {
    |s.hist| - 1
  }

  ghost function Current(s: State): Map
    requires s.hist != []
  {
    s.hist[|s.hist| - 1]
  }

  ghost function Get(M: Map, k: nat): Entry<Id> { if k in M then M[k] else Null }

  ghost predicate Known(s: State, n: Id) { n in s.t.nodes || n in s.dead }

  /** The memory of a node. */
  ghost function Mem(s: State, n: Id): Rec<Id>
    requires Known(s, n)
  {
    if n in s.t.nodes then s.t.nodes[n] else s.dead[n]
  }

  ghost predicate Fresh(s: State, n: Id) { !Known(s, n) && n !in s.detached && n !in s.freed && n !in s.reclaimed }

  // ---------------------------------------------------------------- steps

  datatype Action =
    | InsertBegin(k: nat, e: Entry<Id>)
    | Publish(n: Id)              // a new root above the old one
    | Branch(n: Id)               // a new node in an empty slot on the way down
    | Follow                      // an existing child on the way down
    | Put                         // the entry into its empty slot
    | Refuse                      // -EEXIST
    | EraseHead                   // NULL over the only entry
    | EraseSlot(k: nat, n: Id)       // NULL over the entry of k in leaf n
    | Trim                        // delete_node: NULL over an empty node, or no more to do
    | Free
    | Shrink                      // radix_tree_shrink: the head moves down, or no more to do
    | MarkRetry                   // RETRY over an entry that moved to the root
    | Reclaim(n: Id)
    | Begin(r: nat, k: nat)
    | LoadHead(r: nat)
    | LoadSlot(r: nat)
    | End(r: nat)

  /** The shift above the root that radix_tree_extend asks for in an empty tree. */
  ghost predicate FirstShift(k: nat, shift: nat) {
    && shift % 6 == 0 && shift <= 66 && Shr(k, shift) == 0
    && if k == 0 then shift == 0 else shift >= 6 && Shr(k, shift - 6) > 0
  }

  ghost function LeastCover(k: nat, s: nat): nat
    decreases 66 - s
  {
    if s >= 66 || Shr(k, s) == 0 then s else LeastCover(k, s + 6)
  }

  /** After radix_tree_load_root, and after each new root: extend further, or go down. */
  ghost function AfterLoad(t: Tree<Id>, k: nat, e: Entry<Id>): Writer {
    if t.head != Null && Shr(k, HeadShift(t)) > 0 then Extending(k, e)
    else Descending(k, e, None, if t.head == Null then LeastCover(k, 0) else HeadShift(t))
  }

  /** The entry in the slot the writer stands at. */
  ghost function SlotAt(t: Tree<Id>, k: nat, at: Option<Id>): Entry<Id> {
    if at.None? then t.head
    else if at.value in t.nodes && Digit(k, t.nodes[at.value].shift) < |t.nodes[at.value].slots|
    then t.nodes[at.value].slots[Digit(k, t.nodes[at.value].shift)]
    else Null
  }

  ghost predicate Enabled(s: State, a: Action) {
    match a
    case InsertBegin(k, e) => s.writer == Idle && k < WORD && e.Data()
    case Publish(n) => s.writer.Extending? && Fresh(s, n)
    case Branch(n) => s.writer.Descending? && s.writer.shift > 0 && SlotAt(s.t, s.writer.k, s.writer.at) == Null &&
      Fresh(s, n)
    case Follow => s.writer.Descending? && s.writer.shift > 0 && SlotAt(s.t, s.writer.k, s.writer.at).Internal?
    case Put => s.writer.Descending? && s.writer.shift == 0 && SlotAt(s.t, s.writer.k, s.writer.at) == Null
    case Refuse => s.writer.Descending? && s.writer.shift == 0 && SlotAt(s.t, s.writer.k, s.writer.at) != Null
    case EraseHead => s.writer == Idle && s.t.head.Data()
    case EraseSlot(k, n) =>
      s.writer == Idle && n in s.t.nodes && s.t.nodes[n].shift == 0 && Covers(s.t.nodes[n], k) &&
        SlotAt(s.t, k, Some(n)).Data()
    case Trim => s.writer.Trimming?
    case Free => s.writer.Freeing?
    case Shrink => s.writer == Shrinking
    case MarkRetry => s.writer.Retrying?
    case Reclaim(n) => n in s.freed && n !in s.reclaimed && forall r :: r in s.readers ==>
      s.readers[r].start >= s.freed[n]
    case Begin(r, k) => r !in s.readers && k < WORD
    case LoadHead(r) => r in s.readers && s.readers[r].place == Top
    case LoadSlot(r) => r in s.readers && s.readers[r].place.In? && Known(s, s.readers[r].place.node)
    case End(r) => r in s.readers && s.readers[r].place.Done?
  }

  /** One more moment, with contents M. */
  ghost function Tick(s: State, M: Map): State { s.(hist := s.hist + [M]) }

  ghost function Detach(s: State, t: Tree<Id>, n: Id, writer: Writer): State
    requires s.hist != [] && n in s.t.nodes
  {
    var dead, detached := s.dead[n := s.t.nodes[n]], s.detached[n := |s.hist|];
    Tick(s, Current(s)).(t := t, dead := dead, detached := detached, writer := writer)
  }

  ghost function MoveReader(s: State, r: nat, p: Place): State
    requires r in s.readers
  {
    s.(readers := s.readers[r := s.readers[r].(place := p)])
  }

  // ---------------------------------------------------------------- invariant

  ghost predicate WriterOk(s: State, w: Writer) {
    match w
    case Idle => true
    case Shrinking => true
    case Extending(k, e) => k < WORD && e.Data() && s.t.head != Null && HeadShift(s.t) <= 60 &&
      Shr(k, HeadShift(s.t)) > 0
    case Descending(k, e, None, shift) =>
      k < WORD && e.Data() && if s.t.head == Null then FirstShift(k, shift)
        else shift == HeadShift(s.t) && Shr(k, shift) == 0
    case Descending(k, e, Some(n), shift) =>
      k < WORD && e.Data() && n in s.t.nodes && RecOk(s.t.nodes[n]) && s.t.nodes[n].shift == shift &&
        Covers(s.t.nodes[n], k)
    case Trimming(n) => n in s.t.nodes && RecOk(s.t.nodes[n])
    case Freeing(n, next) => n in s.dead && n !in s.freed && (next.Idle? || next.Shrinking? || next.Trimming?) &&
      WriterOk(s, next)
    case Retrying(n) => n in s.dead && n !in s.freed && RecOk(s.dead[n]) && s.dead[n].slots[0] != Null
  }

  /** No index of slot i of r was present in M. */
  ghost predicate NoneUnder(M: Map, r: Rec<Id>, i: nat) {
    forall k {:trigger k in M} :: k in M && Covers(r, k) ==> Digit(k, r.shift) != i
  }

  /** What a slot of a detached node can still show: an emptiness that was true when the node was
      detached, a child that was live then, a RETRY, or, until the RETRY is stored, a current entry. */
  ghost predicate DeadSlotOk(s: State, n: Id, i: nat)
    requires s.hist != []
  {
    n in s.dead && n in s.detached && s.detached[n] < |s.hist| && i < |s.dead[n].slots| &&
    var r, d := s.dead[n], s.detached[n];
    match r.slots[i]
    case Null => NoneUnder(s.hist[d], r, i)
    case Retry => r.shift == 0
    case Internal(c) => (
      && r.shift > 0 && Known(s, c) && Mem(s, c).shift + 6 == r.shift && Mem(s, c).prefix == 64 * r.prefix + i
      && (c in s.dead ==> c in s.detached && s.detached[c] >= d))
    case Item(_) => (
      && i == 0 && r.shift == 0 && s.writer == Retrying(n)
      && Get(Current(s), 64 * r.prefix + i) == r.slots[i])
    case Value(_) => (
      && i == 0 && r.shift == 0 && s.writer == Retrying(n)
      && Get(Current(s), 64 * r.prefix + i) == r.slots[i])
  }

  ghost predicate DeadOk(s: State, n: Id)
    requires s.hist != [] && n in s.dead
  {
    && n !in s.t.nodes && n in s.detached && RecOk(s.dead[n])
    && forall i {:trigger DeadSlotOk(s, n, i)} :: 0 <= i < 64 ==> DeadSlotOk(s, n, i)
  }

  ghost predicate FreedOk(s: State) {
    && s.reclaimed <= s.freed.Keys <= s.dead.Keys && s.detached.Keys == s.dead.Keys
    && forall n {:trigger s.freed[n]} :: n in s.freed ==> s.detached[n] <= s.freed[n] < |s.hist|
  }

  /** Whatever has been reclaimed was freed before the reader started. */
  ghost predicate GraceOk(s: State, rd: Reader) {
    forall n {:trigger n in s.reclaimed} :: n in s.reclaimed ==> n in s.freed && s.freed[n] <= rd.start
  }

  /** A reader stands at a live node, or at one that was still live when it started. */
  ghost predicate ReaderOk(s: State, rd: Reader) {
    && rd.index < WORD && rd.start < |s.hist| && GraceOk(s, rd)
    && match rd.place
       case Top => true
       case In(n) => (
         && n !in s.reclaimed
         && if n in s.t.nodes then Covers(s.t.nodes[n], rd.index)
            else n in s.dead && n in s.detached && Covers(s.dead[n], rd.index) && rd.start < s.detached[n])
       case Done(result, end) => rd.start <= end < |s.hist| && Shown(s.hist, rd.index, rd.start, end, result)
  }

  /** At some moment from a to b, k held exactly `result` (Null for nothing). */
  ghost predicate Shown(hist: seq<Map>, k: nat, a: nat, b: nat, result: Entry<Id>)
    requires b < |hist|
  {
    exists m {:trigger hist[m]} :: a <= m <= b && result == Get(hist[m], k)
  }

  ghost predicate Inv(s: State) {
    && s.hist != [] && BaseOk(s.t, Current(s)) && !s.t.idr && WriterOk(s, s.writer) && FreedOk(s)
    && (forall n {:trigger DeadOk(s, n)} :: n in s.dead ==> DeadOk(s, n))
    && (forall r {:trigger ReaderOk(s, s.readers[r])} :: r in s.readers ==> ReaderOk(s, s.readers[r]))
  }

  // ---------------------------------------------------------------- what a step does

  ghost function DoBranch(s: State, n: Id): State
    requires Inv(s) && Enabled(s, Branch(n))
  {
    var w := s.writer;
    var t := if w.at.None? then AddRoot(s.t, n, w.shift - 6)
             else AddChild(s.t, w.at.value, Digit(w.k, w.shift), n);
    Tick(s, Current(s)).(t := t, writer := Descending(w.k, w.e, Some(n), w.shift - 6))
  }

  ghost function DoPut(s: State): State
    requires Inv(s) && Enabled(s, Put)
  {
    var w := s.writer;
    var t := if w.at.None? then s.t.(head := w.e) else Store(s.t, w.at.value, Digit(w.k, 0), w.e);
    Tick(s, Current(s)[w.k := w.e]).(t := t, writer := Idle)
  }

  ghost function DoTrim(s: State): State
    requires Inv(s) && s.writer.Trimming?
  {
    var n := s.writer.node;
    var r := s.t.nodes[n];
    assert ParentOk(s.t, n);
    if r.count != 0 then s.(writer := if s.t.head == Internal(n) then Shrinking else Idle)
    else if r.parent.Some? then Detach(s, Unlink(s.t, n), n, Freeing(n, Trimming(r.parent.value)))
    else Detach(s, DropRoot(s.t, {}), n, Freeing(n, Idle))
  }

  ghost function DoShrink(s: State): State
    requires Inv(s) && s.writer == Shrinking
  {
    if !s.t.head.Internal? then s.(writer := Idle)
    else
      var n := s.t.head.node;
      var r := s.t.nodes[n];
      assert RecOk(r) && SlotOk(s.t.nodes, n, 0);
      if r.count != 1 || r.slots[0] == Null then s.(writer := Idle)
      else Detach(s, Lower(s.t, {}), n, Retrying(n))
  }

  ghost function DoMarkRetry(s: State): State
    requires Inv(s) && s.writer.Retrying?
  {
    var n := s.writer.node;
    var r := s.dead[n];
    var dead := if r.slots[0].Internal? then s.dead[n := r.(count := 0)]
                else s.dead[n := r.(count := 0, slots := r.slots[0 := Retry])];
    Tick(s, Current(s)).(dead := dead, writer := Freeing(n, Shrinking))
  }

  ghost function DoLoadHead(s: State, r: nat): State
    requires Inv(s) && Enabled(s, LoadHead(r))
  {
    var k := s.readers[r].index;
    if s.t.head.Internal? then
      if Shr(k, HeadShift(s.t)) > 0 then MoveReader(s, r, Done(Null, Now(s))) else MoveReader(s, r, In(s.t.head.node))
    else MoveReader(s, r, Done(if k > 0 then Null else s.t.head, Now(s)))
  }

  ghost function DoLoadSlot(s: State, r: nat): State
    requires Inv(s) && Enabled(s, LoadSlot(r))
  {
    var rd := s.readers[r];
    var m := Mem(s, rd.place.node);
    assert RecOk(m) by { if rd.place.node in s.dead { assert DeadOk(s, rd.place.node); } }
    var v := m.slots[Digit(rd.index, m.shift)];
    if v == Retry then MoveReader(s, r, Top)
    else if m.shift != 0 && v.Internal? then MoveReader(s, r, In(v.node))
    else MoveReader(s, r, Done(v, Now(s)))
  }

  ghost function Do(s: State, a: Action): State
    requires Inv(s) && Enabled(s, a)
  {
    match a
    case InsertBegin(k, e) => s.(writer := AfterLoad(s.t, k, e))
    case Publish(n) =>
      var t := Grow(s.t, n, HeadShift(s.t), NoTags(), {});
      Tick(s, Current(s)).(t := t, writer := AfterLoad(t, s.writer.k, s.writer.e))
    case Branch(n) => DoBranch(s, n)
    case Follow =>
      var w := s.writer;
      s.(writer := Descending(w.k, w.e, Some(SlotAt(s.t, w.k, w.at).node), w.shift - 6))
    case Put => DoPut(s)
    case Refuse => s.(writer := Idle)
    case EraseHead => Tick(s, map[]).(t := s.t.(head := Null))
    case EraseSlot(k, n) => Tick(s, Current(s) - {k}).(t := Erase(s.t, n, Digit(k, 0)), writer := Trimming(n))
    case Trim => DoTrim(s)
    case Free =>
      var n := s.writer.node;
      Tick(s, Current(s)).(freed := s.freed[n := |s.hist|], writer := s.writer.next)
    case Shrink => DoShrink(s)
    case MarkRetry => DoMarkRetry(s)
    case Reclaim(n) => s.(reclaimed := s.reclaimed + {n})
    case Begin(r, k) => s.(readers := s.readers[r := Reader(k, Now(s), Top)])
    case LoadHead(r) => DoLoadHead(s, r)
    case LoadSlot(r) => DoLoadSlot(s, r)
    case End(r) => s.(readers := s.readers - {r})
  }

  // ---------------------------------------------------------------- the invariant is kept

  /** A writer step: one more moment; no memory changes position; nodes only leave the tree now. */
  ghost predicate Evolves(s: State, s': State) {
    && s.hist != [] && |s'.hist| == |s.hist| + 1 && s'.hist[..|s.hist|] == s.hist
    && s'.readers == s.readers && s'.reclaimed == s.reclaimed &&
      (forall n :: n in s.reclaimed && n in s.freed ==> n in s'.freed && s'.freed[n] == s.freed[n])
    && s'.t.nodes.Keys !! s.dead.Keys
    && (forall n {:trigger Lies(s, s', n)} :: n in s.dead ==> Lies(s, s', n))
    && (forall n {:trigger Stays(s, s', n)} :: n in s.t.nodes ==> Stays(s, s', n))
  }

  /** A detached node lies where it lay. */
  ghost predicate Lies(s: State, s': State, n: Id)
    requires n in s.dead
  {
    n in s'.dead && s'.dead[n] == s.dead[n] && n in s.detached && n in s'.detached && s'.detached[n] == s.detached[n]
  }

  /** A live node stays live, or is detached now, with its position unchanged. */
  ghost predicate Stays(s: State, s': State, n: Id)
    requires n in s.t.nodes
  {
    var r := s.t.nodes[n];
    if n in s'.t.nodes then
      s'.t.nodes[n].shift == r.shift && s'.t.nodes[n].prefix == r.prefix && n !in s'.dead
    else
      && n in s'.dead && s'.dead[n].shift == r.shift && s'.dead[n].prefix == r.prefix
      && n in s'.detached && s'.detached[n] == |s.hist|
  }

  lemma EvolveReaders(s: State, s': State)
    requires Inv(s) && Evolves(s, s')
    ensures forall r :: r in s'.readers ==> ReaderOk(s', s'.readers[r])
  {
    forall r | r in s'.readers ensures ReaderOk(s', s'.readers[r]) {
      var rd := s.readers[r];
      assert ReaderOk(s, rd);
      match rd.place
      case Top =>
      case In(n) =>
        if n in s.t.nodes { assert Stays(s, s', n); } else { assert Lies(s, s', n); }
      case Done(result, end) =>
        var m :| rd.start <= m <= end && result == Get(s.hist[m], rd.index);
        assert s'.hist[m] == s'.hist[..|s.hist|][m] == s.hist[m];
    }
  }

  lemma EvolveDead(s: State, s': State)
    requires Inv(s) && Evolves(s, s') && !s.writer.Retrying?
    ensures forall n {:trigger DeadOk(s', n)} :: n in s.dead ==> n in s'.dead && DeadOk(s', n)
  {
    forall n {:trigger n in s.dead} {:trigger DeadOk(s', n)} | n in s.dead ensures n in s'.dead && DeadOk(s', n) {
      NodeEvolves(s, s', n);
    }
  }

  lemma NodeEvolves(s: State, s': State, n: Id)
    requires Inv(s) && Evolves(s, s') && !s.writer.Retrying? && n in s.dead
    ensures n in s'.dead && DeadOk(s', n)
  {
    assert DeadOk(s, n) && Lies(s, s', n);
    forall i {:trigger DeadSlotOk(s', n, i)} | 0 <= i < 64 ensures DeadSlotOk(s', n, i) {
      SlotEvolves(s, s', n, i);
    }
  }

  /** A slot of a detached node goes on showing what it showed. */
  lemma SlotEvolves(s: State, s': State, n: Id, i: nat)
    requires Inv(s) && Evolves(s, s') && !s.writer.Retrying? && n in s.dead && i < 64
    ensures DeadSlotOk(s', n, i)
  {
    assert DeadOk(s, n) && Lies(s, s', n) && DeadSlotOk(s, n, i);
    var d := s.detached[n];
    assert s'.hist[d] == s'.hist[..|s.hist|][d] == s.hist[d];
    if s.dead[n].slots[i].Internal? {
      var c := s.dead[n].slots[i].node;
      if c in s.t.nodes { assert Stays(s, s', c); } else { assert Lies(s, s', c); }
    }
  }

  lemma {:induction false} TopShiftIs(k: nat, s: nat)
    requires k < WORD && s % 6 == 0 && s <= 66 && (s > 0 ==> s >= 6 && Shr(k, s - 6) > 0)
    ensures FirstShift(k, LeastCover(k, s))
    decreases 66 - s
  {
    ShrTop(k);
    if s < 66 && Shr(k, s) != 0 {
      TopShift(k, s);
      TopShiftIs(k, s + 6);
    } else if k == 0 && s > 0 {
      ShrZeroUp(0, 0, s - 6);
    }
  }

  lemma HeadShiftMod(t: Tree<Id>)
    requires Shape(t)
    ensures HeadShift(t) % 6 == 0 && HeadShift(t) <= 66
  {
    if t.head.Internal? { assert RecOk(t.nodes[t.head.node]); }
  }

  lemma AfterLoadOk(s: State, k: nat, e: Entry<Id>)
    requires s.hist != [] && Shape(s.t) && k < WORD && e.Data()
    ensures WriterOk(s, AfterLoad(s.t, k, e))
  {
    HeadShiftMod(s.t);
    if s.t.head == Null { TopShiftIs(k, 0); } else if Shr(k, HeadShift(s.t)) > 0 { TopShift(k, HeadShift(s.t)); }
  }

  /** What is left to show of a writer step that takes no node out of the tree. */
  lemma KeepGrowth(s: State, s': State)
    requires Inv(s) && !s.writer.Retrying? && Evolves(s, s')
    requires BaseOk(s'.t, Current(s')) && !s'.t.idr && WriterOk(s', s'.writer)
    requires s'.dead == s.dead && s'.detached == s.detached && s'.freed == s.freed
    ensures Inv(s')
  {
    EvolveReaders(s, s');
    EvolveDead(s, s');
  }

  lemma Apart(s: State)
    requires Inv(s)
    ensures s.t.nodes.Keys !! s.dead.Keys
  {
    forall m | m in s.dead ensures m !in s.t.nodes { assert DeadOk(s, m); }
  }

  lemma KeepPublish(s: State, n: Id)
    requires Inv(s) && Enabled(s, Publish(n))
    ensures Inv(Do(s, Publish(n)))
  {
    PublishTree(s, n);
    Apart(s);
    KeepGrowth(s, Do(s, Publish(n)));
  }

  lemma PublishTree(s: State, n: Id)
    requires Inv(s) && Enabled(s, Publish(n))
    ensures var s' := Do(s, Publish(n)); BaseOk(s'.t, Current(s)) && WriterOk(s', s'.writer)
  {
    HeadShiftMod(s.t);
    GrowBase(s.t, Current(s), n, HeadShift(s.t), NoTags(), {});
    AfterLoadOk(Do(s, Publish(n)), s.writer.k, s.writer.e);
  }

  lemma KeepBranch(s: State, n: Id)
    requires Inv(s) && Enabled(s, Branch(n))
    ensures Inv(Do(s, Branch(n)))
  {
    var s', w := Do(s, Branch(n)), s.writer;
    BranchTree(s, n);
    Apart(s);
    KeepGrowth(s, s');
  }

  lemma BranchTree(s: State, n: Id)
    requires Inv(s) && Enabled(s, Branch(n))
    ensures var s' := Do(s, Branch(n));
      BaseOk(s'.t, Current(s)) && n in s'.t.nodes && RecOk(s'.t.nodes[n]) && Covers(s'.t.nodes[n], s.writer.k)
  {
    var s', w := Do(s, Branch(n)), s.writer;
    if w.at.None? {
      AddRootBase(s.t, Current(s), n, w.shift - 6);
      assert Covers(s'.t.nodes[n], w.k);
    } else {
      AddChildBase(s.t, Current(s), w.at.value, Digit(w.k, w.shift), n);
      ChildRange(s.t.nodes[w.at.value], s'.t.nodes[n], Digit(w.k, w.shift), w.k);
    }
    assert RecOk(s'.t.nodes[n]);
  }

  lemma KeepPut(s: State)
    requires Inv(s) && Enabled(s, Put)
    ensures Inv(Do(s, Put))
  {
    PutTree(s);
    Apart(s);
    KeepGrowth(s, Do(s, Put));
  }

  lemma PutTree(s: State)
    requires Inv(s) && Enabled(s, Put)
    ensures BaseOk(Do(s, Put).t, Current(Do(s, Put)))
  {
    var s', w := Do(s, Put), s.writer;
    var M := Current(s);
    if w.at.None? {
      assert w.k == 0 && s.t.nodes == map[] && M == map[];
      assert BaseOk(s'.t, map[0 := w.e]);
    } else {
      var n := w.at.value;
      LeafKey(s.t.nodes[n], w.k);
      assert LeafOk(s.t.nodes[n], M, Digit(w.k, 0));
      StoreBase(s.t, M, n, Digit(w.k, 0), w.k, w.e);
    }
  }

  lemma KeepErase(s: State, k: nat, n: Id)
    requires Inv(s) && Enabled(s, EraseSlot(k, n))
    ensures Inv(Do(s, EraseSlot(k, n)))
  {
    var s' := Do(s, EraseSlot(k, n));
    assert RecOk(s.t.nodes[n]);
    LeafKey(s.t.nodes[n], k);
    assert LeafOk(s.t.nodes[n], Current(s), Digit(k, 0));
    EraseBase(s.t, Current(s), n, Digit(k, 0), k);
    assert RecOk(s'.t.nodes[n]);
    Apart(s);
    KeepGrowth(s, s');
  }

  lemma KeepEraseHead(s: State)
    requires Inv(s) && Enabled(s, EraseHead)
    ensures Inv(Do(s, EraseHead))
  {
    var s' := Do(s, EraseHead);
    assert s.t.nodes == map[];
    Apart(s);
    KeepGrowth(s, s');
  }

  /** A node that leaves the tree shows what was true of it at that moment. */
  lemma KeepDetach(s: State, s': State, n: Id)
    requires Inv(s) && !s.writer.Retrying? && n in s.t.nodes
    requires s' == Detach(s, s'.t, n, s'.writer)
    requires BaseOk(s'.t, Current(s)) && !s'.t.idr && s'.t.nodes.Keys == s.t.nodes.Keys - {n}
    requires forall m {:trigger s'.t.nodes[m]} :: m in s'.t.nodes ==>
      s'.t.nodes[m].shift == s.t.nodes[m].shift && s'.t.nodes[m].prefix == s.t.nodes[m].prefix
    requires WriterOk(s', s'.writer) && forall i :: 0 <= i < 64 ==> DeadSlotOk(s', n, i)
    ensures Inv(s')
  {
    Apart(s);
    assert Evolves(s, s') by {
      forall m | m in s.t.nodes ensures Stays(s, s', m) { }
      forall m | m in s.dead ensures Lies(s, s', m) { assert DeadOk(s, m); }
    }
    EvolveReaders(s, s');
    EvolveDead(s, s');
    assert RecOk(s.t.nodes[n]);
    assert DeadOk(s', n);
  }

  /** What an empty node shows when it is taken out: that nothing is below any of its slots. */
  lemma EmptyShows(s: State, s': State, n: Id)
    requires Inv(s) && n in s.t.nodes && s.t.nodes[n].count == 0 && s' == Detach(s, s'.t, n, s'.writer)
    ensures forall i {:trigger DeadSlotOk(s', n, i)} :: 0 <= i < 64 ==> DeadSlotOk(s', n, i)
  {
    EmptyNode(s.t, Current(s), n);
    assert RecOk(s.t.nodes[n]);
    forall i {:trigger DeadSlotOk(s', n, i)} | 0 <= i < 64 ensures DeadSlotOk(s', n, i) { }
  }

  lemma KeepTrim(s: State)
    requires Inv(s) && Enabled(s, Trim)
    ensures Inv(Do(s, Trim))
  {
    var s', n := Do(s, Trim), s.writer.node;
    assert ParentOk(s.t, n);
    if s.t.nodes[n].count != 0 {
      KeepQuiet(s, s'.writer);
    } else {
      EmptyShows(s, s', n);
      TrimTree(s, s', n);
      KeepDetach(s, s', n);
    }
  }

  /** The tree and the writer after an empty node has been taken out. */
  lemma TrimTree(s: State, s': State, n: Id)
    requires Inv(s) && s.writer == Trimming(n) && s.t.nodes[n].count == 0 && s' == DoTrim(s)
    ensures BaseOk(s'.t, Current(s)) && !s'.t.idr && s'.t.nodes.Keys == s.t.nodes.Keys - {n} && WriterOk(s', s'.writer)
    ensures forall m {:trigger s'.t.nodes[m]} :: m in s'.t.nodes ==>
      s'.t.nodes[m].shift == s.t.nodes[m].shift && s'.t.nodes[m].prefix == s.t.nodes[m].prefix
  {
    var r := s.t.nodes[n];
    Apart(s);
    assert ParentOk(s.t, n) && n !in s.freed;
    EmptyNode(s.t, Current(s), n);
    if r.parent.Some? {
      UnlinkBase(s.t, Current(s), n);
      ParentFacts(s.t, n, r.parent.value);
      assert RecOk(s'.t.nodes[r.parent.value]);
    } else {
      DropRootBase(s.t, Current(s), {});
    }
  }

  /** A step of the writer that stores nothing. */
  lemma KeepQuiet(s: State, w: Writer)
    requires Inv(s) && !s.writer.Retrying? && WriterOk(s, w)
    ensures Inv(s.(writer := w))
  {
    var s' := s.(writer := w);
    forall n | n in s'.dead ensures DeadOk(s', n) {
      assert DeadOk(s, n);
      forall i | 0 <= i < 64 ensures DeadSlotOk(s', n, i) { assert DeadSlotOk(s, n, i); }
    }
    forall r | r in s'.readers ensures ReaderOk(s', s'.readers[r]) { assert ReaderOk(s, s.readers[r]); }
    QuietWriter(s, s', w);
  }

  lemma {:induction false} QuietWriter(s: State, s': State, w: Writer)
    requires WriterOk(s, w) && s'.t == s.t && s'.dead == s.dead && s'.freed == s.freed
    ensures WriterOk(s', w)
    decreases w
  {
    if w.Freeing? { QuietWriter(s, s', w.next); }
  }

  lemma KeepShrink(s: State)
    requires Inv(s) && Enabled(s, Shrink)
    ensures Inv(Do(s, Shrink))
  {
    var s' := Do(s, Shrink);
    if !s.t.head.Internal? {
      KeepQuiet(s, Idle);
      return;
    }
    var n := s.t.head.node;
    var r := s.t.nodes[n];
    assert RecOk(r) && SlotOk(s.t.nodes, n, 0);
    if r.count != 1 || r.slots[0] == Null {
      KeepQuiet(s, Idle);
      return;
    }
    Apart(s);
    LowerBase(s.t, Current(s), {});
    assert n !in s.freed;
    LoweredShows(s, n);
    KeepDetach(s, s', n);
  }

  /** What the old root shows when the head has moved below it: only its slot 0 had anything. */
  lemma LoweredShows(s: State, n: Id)
    requires Inv(s) && s.writer == Shrinking && s.t.head == Internal(n)
    requires s.t.nodes[n].count == 1 && |s.t.nodes[n].slots| == 64 && s.t.nodes[n].slots[0] != Null
    ensures forall i {:trigger DeadSlotOk(DoShrink(s), n, i)} :: 0 <= i < 64 ==> DeadSlotOk(DoShrink(s), n, i)
  {
    var s', r := DoShrink(s), s.t.nodes[n];
    assert RecOk(r) && SlotOk(s.t.nodes, n, 0);
    OnlyZero(s.t, Current(s), n);
    Apart(s);
    if r.shift == 0 { assert LeafOk(r, Current(s), 0); }
    forall i {:trigger DeadSlotOk(s', n, i)} | 0 <= i < 64 ensures DeadSlotOk(s', n, i) {
      if i > 0 {
        forall k | k in Current(s) && Covers(r, k) ensures Digit(k, r.shift) != i { }
      }
    }
  }

  lemma KeepMarkRetry(s: State)
    requires Inv(s) && Enabled(s, MarkRetry)
    ensures Inv(Do(s, MarkRetry))
  {
    Apart(s);
    assert DeadOk(s, s.writer.node);
    RetryDead(s);
    RetryReaders(s);
  }

  /** The marker changes no more than a slot that showed a current entry. */
  lemma RetryDead(s: State)
    requires Inv(s) && Enabled(s, MarkRetry)
    ensures forall m {:trigger DeadOk(Do(s, MarkRetry), m)} :: m in Do(s, MarkRetry).dead ==>
      DeadOk(Do(s, MarkRetry), m)
  {
    var s' := Do(s, MarkRetry);
    forall m {:trigger DeadOk(s', m)} | m in s'.dead ensures DeadOk(s', m) {
      assert DeadOk(s, m) && DeadSlotOk(s, m, 0);
      assert s'.hist[s.detached[m]] == s.hist[s.detached[m]];
      forall i {:trigger DeadSlotOk(s', m, i)} | 0 <= i < 64 ensures DeadSlotOk(s', m, i) {
        assert DeadSlotOk(s, m, i);
        RetryClears(s, m, i);
      }
    }
  }

  lemma RetryReaders(s: State)
    requires Inv(s) && Enabled(s, MarkRetry)
    ensures var s' := Do(s, MarkRetry);
      forall x {:trigger ReaderOk(s', s'.readers[x])} :: x in s'.readers ==> ReaderOk(s', s'.readers[x])
  {
    var s' := Do(s, MarkRetry);
    forall x {:trigger ReaderOk(s', s'.readers[x])} | x in s'.readers ensures ReaderOk(s', s'.readers[x]) {
      assert ReaderOk(s, s.readers[x]);
      if s.readers[x].place.Done? { ShownLater(s, s', s.readers[x]); }
    }
  }

  /** Only slot 0 of the node being retried can still show an entry. */
  lemma RetryClears(s: State, m: Id, i: nat)
    requires Inv(s) && s.writer.Retrying? && m in s.dead && i < 64 && DeadSlotOk(s, m, i)
    ensures s.dead[m].slots[i].Data() ==> m == s.writer.node && i == 0
  {
  }

  lemma ShownLater(s: State, s': State, rd: Reader)
    requires s.hist != [] && |s'.hist| >= |s.hist| && s'.hist[..|s.hist|] == s.hist && ReaderOk(s, rd) && rd.place.Done?
    ensures Shown(s'.hist, rd.index, rd.start, rd.place.end, rd.place.result)
  {
    var m :| rd.start <= m <= rd.place.end && rd.place.result == Get(s.hist[m], rd.index);
    assert s'.hist[m] == s'.hist[..|s.hist|][m] == s.hist[m];
  }

  lemma KeepFree(s: State)
    requires Inv(s) && Enabled(s, Free)
    ensures Inv(Do(s, Free))
  {
    var s' := Do(s, Free);
    Apart(s);
    assert DeadOk(s, s.writer.node) && DeadSlotOk(s, s.writer.node, 0);
    assert WriterOk(s, s.writer.next);
    assert Evolves(s, s') by {
      forall m | m in s.t.nodes ensures Stays(s, s', m) { }
      forall m | m in s.dead ensures Lies(s, s', m) { assert DeadOk(s, m); }
    }
    EvolveReaders(s, s');
    EvolveDead(s, s');
  }

  // ---------------------------------------------------------------- readers

  /** What a reader at a node finds: a RETRY, an answer that was right at some moment of its run, or
      a child that covers its index and was live at some moment of its run. */
  lemma SlotShows(s: State, rd: Reader)
    requires Inv(s) && ReaderOk(s, rd) && rd.place.In?
    ensures Known(s, rd.place.node) && RecOk(Mem(s, rd.place.node))
    ensures var m := Mem(s, rd.place.node);
      var v := m.slots[Digit(rd.index, m.shift)];
      v == Retry
      || (m.shift != 0 && v.Internal? && ReaderOk(s, rd.(place := In(v.node))))
      || (!v.Internal? && Shown(s.hist, rd.index, rd.start, Now(s), v))
  {
    var n, k := rd.place.node, rd.index;
    if n in s.t.nodes {
      LiveShows(s, rd, n);
    } else {
      var r, d := s.dead[n], s.detached[n];
      assert DeadOk(s, n);
      var i := Digit(k, r.shift);
      var v := r.slots[i];
      assert DeadSlotOk(s, n, i);
      if v == Null {
        assert k !in s.hist[d];
        assert Get(s.hist[d], k) == Null;
      } else if v.Internal? {
        ChildRange(r, Mem(s, v.node), i, k);
        Apart(s);
        NotReclaimed(s, rd, v.node);
      } else if v.Data() {
        LeafKey(r, k);
        assert Get(s.hist[Now(s)], k) == v;
      }
    }
  }

  lemma LiveShows(s: State, rd: Reader, n: Id)
    requires Inv(s) && ReaderOk(s, rd) && rd.place == In(n) && n in s.t.nodes
    ensures RecOk(s.t.nodes[n])
    ensures var r := s.t.nodes[n];
      var v := r.slots[Digit(rd.index, r.shift)];
      || (r.shift != 0 && v.Internal? && ReaderOk(s, rd.(place := In(v.node))))
      || (!v.Internal? && Shown(s.hist, rd.index, rd.start, Now(s), v))
  {
    var r, k, M := s.t.nodes[n], rd.index, Current(s);
    assert RecOk(r);
    var i := Digit(k, r.shift);
    assert SlotOk(s.t.nodes, n, i);
    if r.slots[i].Internal? {
      ChildCovers(s.t, n, k);
      Apart(s);
    } else {
      if r.shift == 0 {
        LeafKey(r, k);
        assert LeafOk(r, M, i);
      } else {
        assert k in M ==> LeadsTo(r, k);
      }
      assert Get(s.hist[Now(s)], k) == r.slots[i];
    }
  }

  /** Memory is reclaimed only after every reader that could still get to it is gone. */
  lemma NotReclaimed(s: State, rd: Reader, c: Id)
    requires Inv(s) && rd.start < |s.hist| && Known(s, c) &&
      (c in s.dead ==> c in s.detached && rd.start < s.detached[c])
    requires GraceOk(s, rd)
    ensures c !in s.reclaimed
  {
  }

  /** Steps that change only the readers. */
  lemma KeepReaders(s: State, s': State)
    requires Inv(s) && s' == s.(readers := s'.readers)
    requires forall r :: r in s'.readers ==> ReaderOk(s, s'.readers[r])
    ensures Inv(s')
  {
    forall n | n in s'.dead ensures DeadOk(s', n) {
      assert DeadOk(s, n);
      forall i | 0 <= i < 64 ensures DeadSlotOk(s', n, i) { assert DeadSlotOk(s, n, i); }
    }
    forall r | r in s'.readers ensures ReaderOk(s', s'.readers[r]) { assert ReaderOk(s, s'.readers[r]); }
    SameWriter(s, s', s.writer);
  }

  lemma {:induction false} SameWriter(s: State, s': State, w: Writer)
    requires WriterOk(s, w) && s'.t == s.t && s'.dead == s.dead && s'.freed == s.freed
    ensures WriterOk(s', w)
  {
    QuietWriter(s, s', w);
  }

  /** What the head shows: where to go on, or what the indices hold now. */
  lemma HeadShows(s: State, k: nat)
    requires Inv(s) && k < WORD
    ensures s.t.head.Internal? && Shr(k, HeadShift(s.t)) == 0 ==>
      s.t.head.node in s.t.nodes && RecOk(s.t.nodes[s.t.head.node]) && Covers(s.t.nodes[s.t.head.node], k)
    ensures s.t.head.Internal? && Shr(k, HeadShift(s.t)) > 0 ==> k !in Current(s)
    ensures !s.t.head.Internal? ==> Get(Current(s), k) == (if k == 0 then s.t.head else Null)
  {
    if k in Current(s) { InRange(s.t, Current(s), k); }
  }

  lemma KeepLoadHead(s: State, r: nat)
    requires Inv(s) && Enabled(s, LoadHead(r))
    ensures Inv(Do(s, LoadHead(r)))
  {
    var s' := Do(s, LoadHead(r));
    HeadRead(s, r);
    forall x | x in s'.readers ensures ReaderOk(s, s'.readers[x]) { if x != r { assert ReaderOk(s, s.readers[x]); } }
    KeepReaders(s, s');
  }

  lemma HeadRead(s: State, r: nat)
    requires Inv(s) && Enabled(s, LoadHead(r))
    ensures ReaderOk(s, DoLoadHead(s, r).readers[r])
  {
    var rd := s.readers[r];
    assert ReaderOk(s, rd);
    HeadShows(s, rd.index);
    Apart(s);
    assert Get(s.hist[Now(s)], rd.index) == Get(Current(s), rd.index);
  }

  lemma KeepLoadSlot(s: State, r: nat)
    requires Inv(s) && Enabled(s, LoadSlot(r))
    ensures Inv(Do(s, LoadSlot(r)))
  {
    var s', rd := Do(s, LoadSlot(r)), s.readers[r];
    assert ReaderOk(s, rd);
    SlotShows(s, rd);
    forall x | x in s'.readers ensures ReaderOk(s, s'.readers[x]) { if x != r { assert ReaderOk(s, s.readers[x]); } }
    KeepReaders(s, s');
  }

  lemma KeepBeginEnd(s: State, a: Action)
    requires Inv(s) && Enabled(s, a) && (a.Begin? || a.End?)
    ensures Inv(Do(s, a))
  {
    var s' := Do(s, a);
    forall x | x in s'.readers
      ensures ReaderOk(s, s'.readers[x])
    {
      if x in s.readers { assert ReaderOk(s, s.readers[x]); }
    }
    KeepReaders(s, s');
  }

  lemma KeepReclaim(s: State, n: Id)
    requires Inv(s) && Enabled(s, Reclaim(n))
    ensures Inv(Do(s, Reclaim(n)))
  {
    var s' := Do(s, Reclaim(n));
    forall m | m in s'.dead ensures DeadOk(s', m) {
      assert DeadOk(s, m);
      forall i | 0 <= i < 64 ensures DeadSlotOk(s', m, i) { assert DeadSlotOk(s, m, i); }
    }
    Apart(s);
    forall r | r in s'.readers ensures ReaderOk(s', s'.readers[r]) {
      assert ReaderOk(s, s.readers[r]);
      assert GraceOk(s', s'.readers[r]);
    }
    SameWriter(s, s', s.writer);
  }

  lemma KeepFollow(s: State)
    requires Inv(s) && Enabled(s, Follow)
    ensures Inv(Do(s, Follow))
  {
    var s', w := Do(s, Follow), s.writer;
    if w.at.Some? {
      ChildCovers(s.t, w.at.value, w.k);
    } else {
      assert Covers(s.t.nodes[s.t.head.node], w.k);
    }
    assert RecOk(s.t.nodes[s'.writer.at.value]);
    KeepQuiet(s, s'.writer);
  }

  lemma KeepBegin(s: State, k: nat, e: Entry<Id>)
    requires Inv(s) && Enabled(s, InsertBegin(k, e))
    ensures Inv(Do(s, InsertBegin(k, e)))
  {
    AfterLoadOk(s, k, e);
    KeepQuiet(s, AfterLoad(s.t, k, e));
  }

  lemma KeepRefuse(s: State)
    requires Inv(s) && Enabled(s, Refuse)
    ensures Inv(Do(s, Refuse))
  {
    KeepQuiet(s, Idle);
  }

  predicate Inserts(a: Action) { a.InsertBegin? || a.Publish? || a.Branch? || a.Follow? || a.Put? || a.Refuse? }

  predicate Deletes(a: Action) { a.EraseHead? || a.EraseSlot? || a.Trim? || a.Free? || a.Shrink? || a.MarkRetry? }

  lemma KeepInsert(s: State, a: Action)
    requires Inv(s) && Enabled(s, a) && Inserts(a)
    ensures Inv(Do(s, a))
  {
    match a
    case InsertBegin(k, e) => KeepBegin(s, k, e);
    case Publish(n) => KeepPublish(s, n);
    case Branch(n) => KeepBranch(s, n);
    case Follow => KeepFollow(s);
    case Put => KeepPut(s);
    case Refuse => KeepRefuse(s);
  }

  lemma KeepDelete(s: State, a: Action)
    requires Inv(s) && Enabled(s, a) && Deletes(a)
    ensures Inv(Do(s, a))
  {
    match a
    case EraseHead => KeepEraseHead(s);
    case EraseSlot(k, n) => KeepErase(s, k, n);
    case Trim => KeepTrim(s);
    case Free => KeepFree(s);
    case Shrink => KeepShrink(s);
    case MarkRetry => KeepMarkRetry(s);
  }

  lemma KeepOther(s: State, a: Action)
    requires Inv(s) && Enabled(s, a) && !Inserts(a) && !Deletes(a)
    ensures Inv(Do(s, a))
  {
    match a
    case Reclaim(n) => KeepReclaim(s, n);
    case LoadHead(r) => KeepLoadHead(s, r);
    case LoadSlot(r) => KeepLoadSlot(s, r);
    case _ => KeepBeginEnd(s, a);
  }

  /** Every step of the writer, of a reader, or of the reclaimer keeps the invariant. */
  lemma Kept(s: State, a: Action)
    requires Inv(s) && Enabled(s, a)
    ensures Inv(Do(s, a))
  {
    if Inserts(a) { KeepInsert(s, a); } else if Deletes(a) { KeepDelete(s, a); } else { KeepOther(s, a); }
  }

  // ---------------------------------------------------------------- whole runs

  ghost function Start(): State {
    State(Tree(Null, map[], {}, false), map[], map[], map[], {}, Idle, [map[]], map[])
  }

  lemma StartOk()
    ensures Inv(Start())
  {
  }

  /** The state after an interleaving of writer, readers and reclaimer; None if a step is not enabled. */
  ghost function Exec(run: seq<Action>): (o: Option<State>)
    ensures o.Some? ==> Inv(o.value)
    decreases |run|
  {
    if run == [] then
      StartOk();
      Some(Start())
    else
      var p, a := Exec(run[..|run| - 1]), run[|run| - 1];
      if p.Some? && Enabled(p.value, a) then
        Kept(p.value, a);
        Some(Do(p.value, a))
      else None
  }

  /** The moments that have passed stay as they were. */
  lemma HistGrows(s: State, a: Action)
    requires Inv(s) && Enabled(s, a)
    ensures |s.hist| <= |Do(s, a).hist| && Do(s, a).hist[..|s.hist|] == s.hist
  {
    if !StoresEntry(a) { QuietContents(s, a); }
  }

  predicate OfReaders(a: Action) { a.Begin? || a.LoadHead? || a.LoadSlot? || a.End? }

  lemma NotOfReaders(s: State, a: Action)
    requires Inv(s) && Enabled(s, a) && !OfReaders(a)
    ensures Do(s, a).readers == s.readers
  {
  }

  /** A step does not change what another lookup was asked for, nor when. */
  lemma AsksStay(s: State, a: Action, r: nat)
    requires Inv(s) && Enabled(s, a) && r in s.readers && a != End(r)
    ensures r in Do(s, a).readers
    ensures Do(s, a).readers[r].index == s.readers[r].index && Do(s, a).readers[r].start == s.readers[r].start
  {
    if !OfReaders(a) { NotOfReaders(s, a); }
  }

  /** The run of a lookup: reader r begins to look up k after `before`, and has not ended after `after`. */
  ghost predicate LookupRun(before: seq<Action>, r: nat, k: nat, after: seq<Action>) {
    Exec(before + [Begin(r, k)] + after).Some? && End(r) !in after
  }

  /** Throughout its run a lookup is for the index it was begun with, and counts from the moment it began. */
  lemma {:induction false} AsksForIts(before: seq<Action>, r: nat, k: nat, after: seq<Action>)
    requires LookupRun(before, r, k, after)
    ensures Exec(before).Some?
    ensures var s := Exec(before + [Begin(r, k)] + after).value;
      r in s.readers && s.readers[r].index == k && s.readers[r].start == Now(Exec(before).value)
    decreases |after|
  {
    var run := before + [Begin(r, k)] + after;
    if after == [] {
      assert run[..|run| - 1] == before;
    } else {
      var n := |after| - 1;
      assert run[..|run| - 1] == before + [Begin(r, k)] + after[..n];
      AsksForIts(before, r, k, after[..n]);
      AsksStay(Exec(run[..|run| - 1]).value, after[n], r);
    }
  }

  /** Lookup is linearizable: whatever a lookup of k returns, k held exactly that at some moment between its begin and
      its return. */
  lemma Linearizable(before: seq<Action>, r: nat, k: nat, after: seq<Action>)
    requires LookupRun(before, r, k, after)
    ensures Exec(before).Some?
    ensures var s := Exec(before + [Begin(r, k)] + after).value;
      && r in s.readers
      && var p := s.readers[r].place;
      p.Done? ==>
        Now(Exec(before).value) <= p.end < |s.hist| && Shown(s.hist, k, Now(Exec(before).value), p.end, p.result)
  {
    AsksForIts(before, r, k, after);
    var s := Exec(before + [Begin(r, k)] + after).value;
    assert ReaderOk(s, s.readers[r]);
  }

  /** So an index that stays bound to one entry throughout a lookup is found, and one that stays
      absent is not. */
  lemma SteadyIsFound(before: seq<Action>, r: nat, k: nat, after: seq<Action>, v: Entry<Id>)
    requires LookupRun(before, r, k, after) && Exec(before).Some?
    requires var s := Exec(before + [Begin(r, k)] + after).value;
      && r in s.readers && s.readers[r].place.Done?
      && forall m :: Now(Exec(before).value) <= m <= s.readers[r].place.end && m < |s.hist| ==> Get(s.hist[m], k) == v
    ensures Exec(before + [Begin(r, k)] + after).value.readers[r].place.result == v
  {
    Linearizable(before, r, k, after);
  }

  /** Deferred freeing is enough: the node a reader is about to load from exists and has not been
      reclaimed, whatever became of the tree since the reader got there. */
  lemma NoUseAfterFree(run: seq<Action>, r: nat)
    requires Exec(run).Some? && r in Exec(run).value.readers && Exec(run).value.readers[r].place.In?
    ensures var s := Exec(run).value;
      s.readers[r].place.node !in s.reclaimed && Enabled(s, LoadSlot(r))
  {
    assert ReaderOk(Exec(run).value, Exec(run).value.readers[r]);
  }

  /** The writer is never stuck: from every state but Idle its program has a next step, given memory
      for a new node. */
  lemma WriterProgress(s: State, n: Id) returns (a: Action)
    requires Inv(s) && s.writer != Idle && Fresh(s, n)
    ensures Enabled(s, a) &&
      (a.Publish? || a.Branch? || a.Follow? || a.Put? || a.Refuse? || a.Trim? || a.Free? || a.Shrink? || a.MarkRetry?)
  {
    match s.writer
    case Extending(_, _) => a := Publish(n);
    case Descending(k, e, at, shift) =>
      var v := SlotAt(s.t, k, at);
      if at.Some? { assert SlotOk(s.t.nodes, at.value, Digit(k, shift)); }
      if shift > 0 { a := if v == Null then Branch(n) else Follow; } else { a := if v == Null then Put else Refuse; }
    case Trimming(_) => a := Trim;
    case Freeing(_, _) => a := Free;
    case Shrinking => a := Shrink;
    case Retrying(_) => a := MarkRetry;
  }

  /** What each step of the writer means for the contents: an insertion binds an absent index, is
      refused for a present one, a deletion unbinds a present one, and nothing else changes them. */
  lemma ContentsChange(s: State, a: Action)
    requires Inv(s) && Enabled(s, a)
    ensures var M, M' := Current(s), Current(Do(s, a));
      match a
      case Put => s.writer.k !in M && M' == M[s.writer.k := s.writer.e]
      case Refuse => s.writer.k in M && M' == M
      case EraseHead => 0 in M && M' == M - {0}
      case EraseSlot(k, _) => k in M && M' == M - {k}
      case _ => M' == M
  {
    if a.Put? || a.Refuse? {
      SlotShowsMap(s);
    } else if a.EraseSlot? {
      EraseShowsMap(s, a.k, a.n);
    } else if !a.EraseHead? {
      QuietContents(s, a);
    }
  }

  predicate StoresEntry(a: Action) { a.Put? || a.EraseHead? || a.EraseSlot? }

  /** All other steps leave the contents. */
  lemma QuietContents(s: State, a: Action)
    requires Inv(s) && Enabled(s, a) && !StoresEntry(a)
    ensures Do(s, a).hist == s.hist || Do(s, a).hist == s.hist + [Current(s)]
    ensures Current(Do(s, a)) == Current(s)
  {
  }

  /** At the slot of its index, the writer sees whether the index is present. */
  lemma SlotShowsMap(s: State)
    requires Inv(s) && s.writer.Descending? && s.writer.shift == 0
    ensures s.writer.k in Current(s) <==> SlotAt(s.t, s.writer.k, s.writer.at) != Null
  {
    if s.writer.at.Some? {
      LeafKey(s.t.nodes[s.writer.at.value], s.writer.k);
      assert LeafOk(s.t.nodes[s.writer.at.value], Current(s), Digit(s.writer.k, 0));
    }
  }

  lemma EraseShowsMap(s: State, k: nat, n: Id)
    requires Inv(s) && Enabled(s, EraseSlot(k, n))
    ensures k in Current(s)
  {
    LeafKey(s.t.nodes[n], k);
    assert RecOk(s.t.nodes[n]) && LeafOk(s.t.nodes[n], Current(s), Digit(k, 0));
  }
}
