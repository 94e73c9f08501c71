/** What the operations of Lockless come to: a lookup, an insertion and a deletion that are left alone end, with the
    results they have in a sequential tree; and an insertion binds what it was begun for, whatever else goes on. */
module LocklessRuns {
  import opened Words
  import opened TreeHeap
  import opened Lockless
  import opened LocklessShape

  // ---------------------------------------------------------------- steps from a state on

  /** The state some steps lead to; None if one is not enabled. */
  ghost function Then(s: State, steps: seq<Action>): (o: Option<State>)
    requires Inv(s)
    ensures o.Some? ==> Inv(o.value)
    decreases |steps|
  {
    if steps == [] then Some(s)
    else if Enabled(s, steps[0]) then
      Kept(s, steps[0]);
      Then(Do(s, steps[0]), steps[1..])
    else None
  }

  lemma ThenStep(s: State, a: Action, more: seq<Action>)
    requires Inv(s) && Enabled(s, a) && Inv(Do(s, a))
    ensures Then(s, [a] + more) == Then(Do(s, a), more)
  {
    assert ([a] + more)[1..] == more;
  }

  // ---------------------------------------------------------------- a lookup alone

  predicate Loads(a: Action, r: nat) { a == LoadHead(r) || a == LoadSlot(r) }

  predicate AllLoads(run: seq<Action>, r: nat) { forall a :: a in run ==> Loads(a, r) }

  /** How many loads a reader is away from its end at most, if nothing else happens. */
  ghost function LoadsLeft(s: State, p: Place): nat {
    match p
    case Done(_, _) => 0
    case Top => 12
    case In(n) => if n in s.t.nodes then 1 + s.t.nodes[n].shift / 6
                  else if n in s.dead then 13 + s.dead[n].shift / 6 else 0
  }

  /** A load brings a reader nearer to its end, and changes nothing else. */
  lemma LoadCounts(s: State, r: nat) returns (a: Action)
    requires Inv(s) && r in s.readers && !s.readers[r].place.Done?
    ensures Loads(a, r) && Enabled(s, a)
    ensures var s' := Do(s, a);
      && s' == s.(readers := s'.readers) && r in s'.readers && s'.readers[r].index == s.readers[r].index
      && s'.readers[r].start == s.readers[r].start && s'.readers - {r} == s.readers - {r}
      && LoadsLeft(s', s'.readers[r].place) < LoadsLeft(s, s.readers[r].place)
  {
    var rd := s.readers[r];
    assert ReaderOk(s, rd);
    if rd.place == Top {
      a := LoadHead(r);
      if s.t.head.Internal? { assert RecOk(s.t.nodes[s.t.head.node]); }
    } else {
      a := LoadSlot(r);
      SlotShows(s, rd);
      var n := rd.place.node;
      if n in s.t.nodes {
        LiveShows(s, rd, n);
        LiveCounts(s, rd.index, n);
      } else {
        DeadCounts(s, rd.index, n);
      }
    }
  }

  lemma LiveCounts(s: State, k: nat, n: Id)
    requires Inv(s) && n in s.t.nodes && Covers(s.t.nodes[n], k)
    ensures RecOk(s.t.nodes[n])
    ensures var r := s.t.nodes[n];
      var v := r.slots[Digit(k, r.shift)];
      v != Retry && (v.Internal? ==> v.node in s.t.nodes && s.t.nodes[v.node].shift + 6 == r.shift)
  {
    assert RecOk(s.t.nodes[n]);
    assert SlotOk(s.t.nodes, n, Digit(k, s.t.nodes[n].shift));
    if s.t.nodes[n].slots[Digit(k, s.t.nodes[n].shift)].Internal? { ChildCovers(s.t, n, k); }
  }

  lemma DeadCounts(s: State, k: nat, n: Id)
    requires Inv(s) && n in s.dead
    ensures RecOk(s.dead[n])
    ensures var r := s.dead[n];
      var v := r.slots[Digit(k, r.shift)];
      v.Internal? ==> Known(s, v.node) && Mem(s, v.node).shift + 6 == r.shift && Mem(s, v.node).shift <= 60
  {
    Apart(s);
    assert DeadOk(s, n);
    assert DeadSlotOk(s, n, Digit(k, s.dead[n].shift));
  }

  /** A reader that is left alone ends, after no more loads than that. */
  lemma {:induction false} LookupEnds(s: State, r: nat) returns (loads: seq<Action>)
    requires Inv(s) && r in s.readers
    ensures AllLoads(loads, r) && |loads| <= LoadsLeft(s, s.readers[r].place) && Then(s, loads).Some?
    ensures var s' := Then(s, loads).value;
      && s' == s.(readers := s'.readers) && r in s'.readers && s'.readers[r].place.Done?
      && s'.readers[r].index == s.readers[r].index && s'.readers[r].start == s.readers[r].start
      && s'.readers - {r} == s.readers - {r}
    decreases LoadsLeft(s, s.readers[r].place)
  {
    if s.readers[r].place.Done? {
      loads := [];
    } else {
      var a := LoadCounts(s, r);
      Kept(s, a);
      var more := LookupEnds(Do(s, a), r);
      loads := [a] + more;
      ThenStep(s, a, more);
    }
  }

  /** In any state of any run, a new lookup of k that is left alone ends within 12 loads and returns what k holds. */
  lemma LookupAlone(s: State, r: nat, k: nat) returns (loads: seq<Action>)
    requires Inv(s) && r !in s.readers && k < WORD
    ensures AllLoads(loads, r) && |loads| <= 12 && Then(s, [Begin(r, k)] + loads).Some?
    ensures var s' := Then(s, [Begin(r, k)] + loads).value;
      && s' == s.(readers := s'.readers) && r in s'.readers && s'.readers[r].place.Done?
      && s'.readers[r].place.result == Get(Current(s), k)
      && Enabled(s', End(r)) && Do(s', End(r)) == s
  {
    BeginNow(s, r, k);
    assert s.readers[r := Reader(k, Now(s), Top)] - {r} == s.readers;
    var s1 := Do(s, Begin(r, k));
    loads := LookupEnds(s1, r);
    ThenStep(s, Begin(r, k), loads);
    AloneEnds(s, Then(s1, loads).value, r, k);
  }

  lemma AloneEnds(s: State, s': State, r: nat, k: nat)
    requires Inv(s) && Inv(s') && r !in s.readers && r in s'.readers && s'.readers[r].place.Done?
    requires s' == s.(readers := s'.readers) && s'.readers - {r} == s.readers
    requires s'.readers[r].index == k && s'.readers[r].start == Now(s)
    ensures s'.readers[r].place.result == Get(Current(s), k)
    ensures Enabled(s', End(r)) && Do(s', End(r)) == s
  {
    OnlyNow(s', r, k, Now(s));
    EndNow(s, s', r);
  }

  lemma EndNow(s: State, s': State, r: nat)
    requires Inv(s) && Inv(s') && r !in s.readers && r in s'.readers && s'.readers[r].place.Done?
    requires s' == s.(readers := s'.readers) && s'.readers - {r} == s.readers
    ensures Enabled(s', End(r)) && Do(s', End(r)) == s
  {
  }

  /** A freed node goes for good as soon as no reader is left that started before it was freed. */
  lemma GoesInTheEnd(s: State, n: Id)
    requires Inv(s) && n in s.freed && n !in s.reclaimed
    requires forall r :: r in s.readers ==> s.readers[r].start >= s.freed[n]
    ensures Enabled(s, Reclaim(n)) && Inv(Do(s, Reclaim(n)))
    ensures Do(s, Reclaim(n)) == s.(reclaimed := s.reclaimed + {n})
  {
    Kept(s, Reclaim(n));
  }

  /** A lookup that began at the last moment returns what was there then. */
  lemma OnlyNow(s: State, r: nat, k: nat, now: nat)
    requires Inv(s) && now == Now(s) && r in s.readers && s.readers[r].place.Done?
    requires s.readers[r].index == k && s.readers[r].start == now
    ensures s.readers[r].place.result == Get(Current(s), k)
  {
    assert ReaderOk(s, s.readers[r]);
  }

  lemma BeginNow(s: State, r: nat, k: nat)
    requires Inv(s) && r !in s.readers && k < WORD
    ensures Enabled(s, Begin(r, k)) && Inv(Do(s, Begin(r, k)))
    ensures Do(s, Begin(r, k)) == s.(readers := s.readers[r := Reader(k, Now(s), Top)])
  {
    Kept(s, Begin(r, k));
  }

  // ---------------------------------------------------------------- an insertion in company

  predicate Ends(a: Action) { a.Put? || a.Refuse? }

  ghost predicate Inserting(w: Writer, k: nat, e: Entry<Id>) {
    (w.Extending? || w.Descending?) && w.k == k && w.e == e
  }

  /** Until its last step an insertion stays what it was begun for, and changes no contents. */
  lemma InsertStays(s: State, a: Action, k: nat, e: Entry<Id>)
    requires Inv(s) && Enabled(s, a) && Inserting(s.writer, k, e) && !Ends(a)
    ensures Inserting(Do(s, a).writer, k, e) && Current(Do(s, a)) == Current(s)
  {
    if !Inserts(a) && !Deletes(a) { OthersLeave(s, a); } else { QuietContents(s, a); }
  }

  /** The run of an insertion up to its last step. */
  ghost predicate InsertRun(before: seq<Action>, k: nat, e: Entry<Id>, mid: seq<Action>) {
    Exec(before + [InsertBegin(k, e)] + mid).Some? && forall a :: a in mid ==> !Ends(a)
  }

  lemma {:induction false} InsertsFor(before: seq<Action>, k: nat, e: Entry<Id>, mid: seq<Action>)
    requires InsertRun(before, k, e, mid)
    ensures Exec(before).Some?
    ensures var s := Exec(before + [InsertBegin(k, e)] + mid).value;
      Inserting(s.writer, k, e) && Current(s) == Current(Exec(before).value)
    decreases |mid|
  {
    var run := before + [InsertBegin(k, e)] + mid;
    if mid == [] {
      assert run[..|run| - 1] == before;
    } else {
      var n := |mid| - 1;
      assert run[..|run| - 1] == before + [InsertBegin(k, e)] + mid[..n];
      InsertsFor(before, k, e, mid[..n]);
      InsertStays(Exec(run[..|run| - 1]).value, mid[n], k, e);
    }
  }

  /** An insertion that was begun for k and e binds k to e if k was absent when it began, is refused if k was present,
      and changes nothing else, whatever the readers and the reclaimer do meanwhile. */
  lemma InsertionBinds(before: seq<Action>, k: nat, e: Entry<Id>, mid: seq<Action>)
    requires InsertRun(before, k, e, mid)
    ensures Exec(before).Some?
    ensures var M, s := Current(Exec(before).value), Exec(before + [InsertBegin(k, e)] + mid).value;
      && (Enabled(s, Put) ==> k !in M && Do(s, Put).writer == Idle && Current(Do(s, Put)) == M[k := e])
      && (Enabled(s, Refuse) ==> k in M && Do(s, Refuse).writer == Idle && Current(Do(s, Refuse)) == M)
  {
    InsertsFor(before, k, e, mid);
    InsertionEnds(Exec(before + [InsertBegin(k, e)] + mid).value, k, e);
  }

  lemma InsertionEnds(s: State, k: nat, e: Entry<Id>)
    requires Inv(s) && Inserting(s.writer, k, e)
    ensures Enabled(s, Put) ==>
      k !in Current(s) && Do(s, Put).writer == Idle && Current(Do(s, Put)) == Current(s)[k := e]
    ensures Enabled(s, Refuse) ==>
      k in Current(s) && Do(s, Refuse).writer == Idle && Current(Do(s, Refuse)) == Current(s)
  {
    if Enabled(s, Put) { ContentsChange(s, Put); }
    if Enabled(s, Refuse) { ContentsChange(s, Refuse); }
  }

  // ---------------------------------------------------------------- the writer alone

  lemma {:induction false} Bound(S: set<nat>) returns (f: nat)
    ensures forall x :: x in S ==> x < f
    decreases |S|
  {
    if S == {} {
      f := 0;
    } else {
      var x :| x in S;
      var g := Bound(S - {x});
      f := if g > x then g else x + 1;
      forall y | y in S ensures y < f { if y != x { assert y in S - {x}; } }
    }
  }

  /** There is always a name for a new node. */
  lemma FreshName(s: State) returns (n: Id)
    ensures Fresh(s, n)
  {
    n := Bound(s.t.nodes.Keys + s.dead.Keys + s.detached.Keys + s.freed.Keys + s.reclaimed);
  }

  /** Which part of its program the writer is in, how far it is from the end of that part, and where in a round. */
  ghost function Part(w: Writer): nat {
    match w
    case Idle => 0
    case Extending(_, _) => 3
    case Descending(_, _, _, _) => 2
    case _ => 1
  }

  ghost function Far(s: State): nat {
    match s.writer
    case Extending(_, _) => if HeadShift(s.t) <= 66 then 66 - HeadShift(s.t) else 0
    case Descending(_, _, _, shift) => shift
    case _ => |s.t.nodes|
  }

  ghost function Stage(w: Writer): nat {
    match w
    case Retrying(_) => 4
    case Freeing(_, _) => 3
    case Trimming(_) => 2
    case Shrinking => 1
    case _ => 0
  }

  ghost predicate Nearer(s': State, s: State) {
    || Part(s'.writer) < Part(s.writer)
    || (Part(s'.writer) == Part(s.writer)
        && (Far(s') < Far(s) || (Far(s') == Far(s) && Stage(s'.writer) < Stage(s.writer))))
  }

  predicate Program(a: Action) { (Inserts(a) && !a.InsertBegin?) || (Deletes(a) && !a.EraseHead? && !a.EraseSlot?) }

  lemma FewerNodes(t: Tree<Id>, t': Tree<Id>, n: Id)
    requires n in t.nodes && t'.nodes.Keys == t.nodes.Keys - {n}
    ensures |t'.nodes| < |t.nodes|
  {
    assert |t'.nodes| == |t'.nodes.Keys| && |t.nodes| == |t.nodes.Keys|;
  }

  lemma InsertNearer(s: State, a: Action)
    requires Inv(s) && Enabled(s, a) && Inserts(a) && !a.InsertBegin?
    ensures Nearer(Do(s, a), s)
  {
    HeadShiftMod(s.t);
    if a.Publish? {
      PublishTree(s, a.n);
      HeadShiftMod(Do(s, a).t);
    }
  }

  lemma TrimNearer(s: State)
    requires Inv(s) && s.writer.Trimming?
    ensures Nearer(DoTrim(s), s)
  {
    var n := s.writer.node;
    assert ParentOk(s.t, n);
    if s.t.nodes[n].count == 0 {
      TrimTree(s, DoTrim(s), n);
      FewerNodes(s.t, DoTrim(s).t, n);
    }
  }

  lemma ShrinkNearer(s: State)
    requires Inv(s) && s.writer == Shrinking
    ensures Nearer(DoShrink(s), s)
  {
    if s.t.head.Internal? {
      var n := s.t.head.node;
      assert RecOk(s.t.nodes[n]) && SlotOk(s.t.nodes, n, 0);
      if s.t.nodes[n].count == 1 && s.t.nodes[n].slots[0] != Null { FewerNodes(s.t, DoShrink(s).t, n); }
    }
  }

  lemma DeleteNearer(s: State, a: Action)
    requires Inv(s) && Enabled(s, a) && (a.Trim? || a.Free? || a.Shrink? || a.MarkRetry?)
    ensures Nearer(Do(s, a), s)
  {
    if a.Trim? { TrimNearer(s); } else if a.Shrink? { ShrinkNearer(s); }
  }

  /** What the operation under way will have made of the contents. */
  ghost function Outcome(s: State): Map
    requires s.hist != []
  {
    var M, w := Current(s), s.writer;
    if (w.Extending? || w.Descending?) && w.k !in M then M[w.k := w.e] else M
  }

  lemma OutcomeStays(s: State, a: Action)
    requires Inv(s) && Enabled(s, a) && Program(a)
    ensures Outcome(Do(s, a)) == Outcome(s)
  {
    if s.writer.Extending? || s.writer.Descending? {
      var k, e := s.writer.k, s.writer.e;
      if Ends(a) { InsertionEnds(s, k, e); } else { InsertStays(s, a, k, e); }
    } else {
      QuietContents(s, a);
    }
  }

  lemma ProgramNearer(s: State, a: Action)
    requires Inv(s) && Enabled(s, a) && Program(a)
    ensures Nearer(Do(s, a), s)
  {
    if Inserts(a) { InsertNearer(s, a); } else { DeleteNearer(s, a); }
  }

  lemma ProgramReaders(s: State, a: Action)
    requires Inv(s) && Enabled(s, a) && Program(a)
    ensures Do(s, a).readers == s.readers
  {
    NotOfReaders(s, a);
  }

  /** One step of the writer's program. */
  lemma Advance(s: State) returns (a: Action)
    requires Inv(s) && s.writer != Idle
    ensures Program(a) && Enabled(s, a) && Inv(Do(s, a)) && Nearer(Do(s, a), s) && Outcome(Do(s, a)) == Outcome(s)
    ensures Do(s, a).readers == s.readers
  {
    var n := FreshName(s);
    a := WriterProgress(s, n);
    Kept(s, a);
    ProgramNearer(s, a);
    OutcomeStays(s, a);
    ProgramReaders(s, a);
  }

  /** A writer that is left alone ends its operation, with the outcome it is for. */
  lemma {:induction false} OperationEnds(s: State) returns (steps: seq<Action>)
    requires Inv(s)
    ensures (forall a :: a in steps ==> Program(a)) && Then(s, steps).Some?
    ensures var s' := Then(s, steps).value;
      s'.writer == Idle && Current(s') == Outcome(s) && s'.readers == s.readers
    decreases Part(s.writer), Far(s), Stage(s.writer)
  {
    if s.writer == Idle {
      steps := [];
    } else {
      var a := Advance(s);
      var more := OperationEnds(Do(s, a));
      steps := [a] + more;
      ThenStep(s, a, more);
    }
  }

  /** In any state between operations, an insertion that is left alone is map insertion. */
  lemma InsertAlone(s: State, k: nat, e: Entry<Id>) returns (steps: seq<Action>)
    requires Inv(s) && s.writer == Idle && k < WORD && e.Data()
    ensures (forall a :: a in steps ==> Program(a)) && Then(s, [InsertBegin(k, e)] + steps).Some?
    ensures var s' := Then(s, [InsertBegin(k, e)] + steps).value;
      && s'.writer == Idle && s'.readers == s.readers
      && Current(s') == if k in Current(s) then Current(s) else Current(s)[k := e]
  {
    var a := InsertBegin(k, e);
    Kept(s, a);
    steps := OperationEnds(Do(s, a));
    ThenStep(s, a, steps);
  }

  lemma DeleteOffered(s: State, k: nat) returns (a: Action)
    requires Inv(s) && s.writer == Idle && k in Current(s)
    ensures (a.EraseHead? || (a.EraseSlot? && a.k == k)) && Enabled(s, a)
    ensures !Do(s, a).writer.Extending? && !Do(s, a).writer.Descending? && Current(Do(s, a)) == Current(s) - {k}
    ensures Do(s, a).readers == s.readers
  {
    if s.t.head.Internal? {
      var n := LeafOf(s.t, Current(s), s.t.head.node, k);
      assert RecOk(s.t.nodes[n]);
      LeafKey(s.t.nodes[n], k);
      assert LeafOk(s.t.nodes[n], Current(s), Digit(k, 0));
      a := EraseSlot(k, n);
    } else {
      a := EraseHead;
    }
    ContentsChange(s, a);
  }

  /** ... and every present index can be deleted. */
  lemma DeleteAlone(s: State, k: nat) returns (a: Action, steps: seq<Action>)
    requires Inv(s) && s.writer == Idle && k in Current(s)
    ensures (a.EraseHead? || (a.EraseSlot? && a.k == k)) && forall x :: x in steps ==> Program(x)
    ensures Then(s, [a] + steps).Some?
    ensures var s' := Then(s, [a] + steps).value;
      s'.writer == Idle && s'.readers == s.readers && Current(s') == Current(s) - {k}
  {
    a := DeleteOffered(s, k);
    Kept(s, a);
    steps := OperationEnds(Do(s, a));
    ThenStep(s, a, steps);
  }
}
