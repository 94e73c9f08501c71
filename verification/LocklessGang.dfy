/** Gang lookup under RCU: a reader that collects entries while the writer of Lockless is at work. Every load from the
    head or from a slot is one step of it; between two of them any steps of the other actors may happen. */
module LocklessGang {
  import opened Words
  import opened TreeHeap
  import opened Lockless
  import LocklessRuns

  /** What the gang lookup loads next. */
  datatype Spot =
    | Start                  // radix_tree_next_chunk: the head, at label restart
    | Head                   // loop body: the slot of index 0 in the root
    | Enter(node: Id)        // radix_tree_next_chunk: the slot of `index`, on the way down
    | Scan(node: Id)         // ... the next slot behind a hole
    | Reload(node: Id)       // ... the slot found behind a hole, once more
    | Body(node: Id)         // loop body: the slot of `index`
    | Step(node: Id)         // radix_tree_next_slot: the slot of `index`
    | Over

  datatype Hit = Hit(key: nat, entry: Entry<Id>)

  /** A lookup of up to `max` entries from `first` on that began at moment `began` and has settled the indices
      below `index`. */
  datatype Gang = Gang(first: nat, max: nat, began: nat, index: nat, spot: Spot, hits: seq<Hit>)

  // ---------------------------------------------------------------- steps

  ghost predicate Inside(g: Gang) { g.spot.Enter? || g.spot.Scan? || g.spot.Reload? || g.spot.Body? || g.spot.Step? }

  /** To the next slot of a node, or past its last one; nowhere past 2^64. */
  ghost function Skip(g: Gang, n: Id, r: Rec<Id>): Gang {
    var next := First(r.shift, Shr(g.index, r.shift) + 1);
    if next >= WORD then g.(index := WORD, spot := Over)
    else g.(index := next, spot := if Digit(g.index, r.shift) == 63 then Start else Scan(n))
  }

  /** The increment of the loop: on to the next index of the leaf, or past the chunk. */
  ghost function Next(g: Gang, spot: Spot): Gang {
    if g.index + 1 >= WORD then g.(index := WORD, spot := Over)
    else g.(index := g.index + 1, spot := if (g.index + 1) % 64 == 0 then Start else spot)
  }

  /** A child that is not NULL, on the way down. */
  ghost function Go(g: Gang, n: Id, r: Rec<Id>, v: Entry<Id>): Gang {
    if v.Internal? && r.shift != 0 then g.(spot := Enter(v.node)) else g.(spot := Body(n))
  }

  /** An entry for the results. */
  ghost function Take(g: Gang, v: Entry<Id>, next: Gang): Gang {
    var hits := g.hits + [Hit(g.index, v)];
    if |hits| == g.max then g.(index := g.index + 1, spot := Over, hits := hits) else next.(hits := hits)
  }

  ghost function AtHead(s: State, g: Gang): Gang {
    var v := s.t.head;
    if g.spot.Start? then
      if v.Internal? && Shr(g.index, HeadShift(s.t)) == 0 then g.(spot := Enter(v.node))
      else if v.Internal? || g.index > 0 || v == Null then g.(index := WORD, spot := Over)
      else g.(spot := Head)
    else if v.Internal? then g.(spot := Start)
    else if v == Null then g.(index := 1, spot := Start)
    else Take(g, v, g.(index := 1, spot := Start))
  }

  ghost function AtNode(s: State, g: Gang): Gang
    requires Inside(g) && Known(s, g.spot.node) && RecOk(Mem(s, g.spot.node))
  {
    var n := g.spot.node;
    var r := Mem(s, n);
    var v := r.slots[Digit(g.index, r.shift)];
    match g.spot
    case Enter(_) => if v == Null then Skip(g, n, r) else Go(g, n, r, v)
    case Scan(_) => if v == Null then Skip(g, n, r) else g.(spot := Reload(n))
    case Reload(_) => if v == Null then g.(spot := Start) else Go(g, n, r, v)
    case Step(_) => if v == Null then Next(g, Step(n)) else g.(spot := Body(n))
    case Body(_) =>
      if v == Null then Next(g, Step(n))
      else if v.Data() then Take(g, v, Next(g, Step(n)))
      else g.(spot := Start)
  }

  // ---------------------------------------------------------------- invariant

  /** The lookup stands at a node as a reader of index k would. */
  ghost predicate Stands(s: State, g: Gang, k: nat)
    requires Inside(g)
  {
    ReaderOk(s, Reader(k, g.began, In(g.spot.node)))
  }

  /** An index was absent at some moment of the lookup. */
  ghost predicate Gone(hist: seq<Map>, began: nat, k: nat) { began < |hist| && Shown(hist, k, began, |hist| - 1, Null) }

  ghost predicate AmongHits(hits: seq<Hit>, k: nat) {
    exists i {:trigger hits[i]} :: 0 <= i < |hits| && hits[i].key == k
  }

  /** An index is settled: it is among the results, or it was absent at some moment. */
  ghost predicate Seen(hist: seq<Map>, began: nat, k: nat, hits: seq<Hit>) {
    AmongHits(hits, k) || Gone(hist, began, k)
  }

  ghost predicate Settled(hist: seq<Map>, g: Gang) {
    forall k: nat {:trigger Seen(hist, g.began, k, g.hits)} :: g.first <= k < g.index ==> Seen(hist, g.began, k, g.hits)
  }

  /** A result is an entry its index held at some moment. */
  ghost predicate HitOk(hist: seq<Map>, g: Gang, i: nat)
    requires i < |g.hits| && g.began < |hist|
  {
    var h := g.hits[i];
    && g.first <= h.key < g.index && h.entry.Data() && Shown(hist, h.key, g.began, |hist| - 1, h.entry)
    && (i > 0 ==> g.hits[i - 1].key < h.key)
  }

  ghost predicate HitsOk(hist: seq<Map>, g: Gang)
    requires g.began < |hist|
  {
    forall i: nat {:trigger HitOk(hist, g, i)} :: i < |g.hits| ==> HitOk(hist, g, i)
  }

  ghost predicate SpotOk(s: State, g: Gang) {
    && (g.spot.Over? ==> g.index == WORD || |g.hits| == g.max)
    && (!g.spot.Over? ==> g.index < WORD && |g.hits| < g.max)
    && (g.spot.Head? ==> g.index == 0)
    && (Inside(g) ==> Known(s, g.spot.node) && RecOk(Mem(s, g.spot.node)) && Stands(s, g, g.index))
    && (g.spot.Body? || g.spot.Step? ==> Mem(s, g.spot.node).shift == 0)
  }

  ghost predicate GangOk(s: State, g: Gang) {
    && g.began < |s.hist| && GraceOk(s, Reader(0, g.began, Top))
    && g.first <= g.index <= WORD && |g.hits| <= g.max
    && SpotOk(s, g) && Settled(s.hist, g) && HitsOk(s.hist, g)
  }

  // ---------------------------------------------------------------- a step of the lookup keeps it

  /** Settling the indices up to b. */
  lemma SettleTo(hist: seq<Map>, g: Gang, b: nat, spot: Spot)
    requires g.began < |hist| && Settled(hist, g) && HitsOk(hist, g) && g.index <= b
    requires forall k: nat {:trigger Gone(hist, g.began, k)} :: g.index <= k < b ==> Gone(hist, g.began, k)
    ensures var g' := g.(index := b, spot := spot); Settled(hist, g') && HitsOk(hist, g')
  {
    var g' := g.(index := b, spot := spot);
    forall k: nat {:trigger Seen(hist, g'.began, k, g'.hits)} | g.first <= k < b
      ensures Seen(hist, g'.began, k, g'.hits)
    {
      if k < g.index { assert Seen(hist, g.began, k, g.hits); }
    }
    forall i: nat {:trigger HitOk(hist, g', i)} | i < |g'.hits| ensures HitOk(hist, g', i) { assert HitOk(hist, g, i); }
  }

  /** A new result settles its index. */
  lemma TakeTo(hist: seq<Map>, g: Gang, v: Entry<Id>, spot: Spot)
    requires g.began < |hist| && Settled(hist, g) && HitsOk(hist, g) && g.first <= g.index
    requires v.Data() && Shown(hist, g.index, g.began, |hist| - 1, v)
    ensures var g' := g.(index := g.index + 1, spot := spot, hits := g.hits + [Hit(g.index, v)]);
      Settled(hist, g') && HitsOk(hist, g')
  {
    var g' := g.(index := g.index + 1, spot := spot, hits := g.hits + [Hit(g.index, v)]);
    forall k: nat {:trigger Seen(hist, g'.began, k, g'.hits)} | g.first <= k < g'.index
      ensures Seen(hist, g'.began, k, g'.hits)
    {
      if k == g.index {
        assert g'.hits[|g.hits|].key == k;
      } else {
        assert Seen(hist, g.began, k, g.hits);
        if i :| 0 <= i < |g.hits| && g.hits[i].key == k { assert g'.hits[i].key == k; }
      }
    }
    forall i: nat {:trigger HitOk(hist, g', i)} | i < |g'.hits| ensures HitOk(hist, g', i) {
      if i < |g.hits| { assert HitOk(hist, g, i); }
      if 0 < i == |g.hits| { assert HitOk(hist, g, i - 1); }
    }
  }

  lemma ShownNow(s: State, k: nat, began: nat, v: Entry<Id>)
    requires s.hist != [] && began < |s.hist| && Get(Current(s), k) == v
    ensures Shown(s.hist, k, began, Now(s), v)
  {
    assert Get(s.hist[Now(s)], k) == v;
  }

  /** Where the lookup gives up at the head, nothing is left to find. */
  lemma NothingLeft(s: State, g: Gang, b: nat)
    requires Inv(s) && GangOk(s, g) && g.index < WORD && b <= WORD
    requires s.t.head.Internal? ==> Shr(g.index, HeadShift(s.t)) > 0
    requires s.t.head.Data() ==> g.index > 0
    ensures forall k: nat {:trigger Gone(s.hist, g.began, k)} :: g.index <= k < b ==> Gone(s.hist, g.began, k)
  {
    assert s.t.head != Retry;
    forall k: nat {:trigger Gone(s.hist, g.began, k)} | g.index <= k < b ensures Gone(s.hist, g.began, k) {
      HeadShows(s, k);
      if s.t.head.Internal? { ShrMono(g.index, k, HeadShift(s.t)); }
      ShownNow(s, k, g.began, Null);
    }
  }

  lemma StartKeeps(s: State, g: Gang)
    requires Inv(s) && GangOk(s, g) && g.spot.Start?
    ensures GangOk(s, AtHead(s, g))
  {
    var g' := AtHead(s, g);
    HeadShows(s, g.index);
    if g'.spot.Enter? {
      Apart(s);
      NotReclaimed(s, Reader(g.index, g.began, Top), g'.spot.node);
    } else if g'.spot.Over? {
      NothingLeft(s, g, WORD);
    }
    SettleTo(s.hist, g, g'.index, g'.spot);
  }

  lemma HeadKeeps(s: State, g: Gang)
    requires Inv(s) && GangOk(s, g) && g.spot.Head?
    ensures GangOk(s, AtHead(s, g))
  {
    var g' := AtHead(s, g);
    HeadShows(s, 0);
    ShownNow(s, 0, g.began, Get(Current(s), 0));
    if g'.hits != g.hits {
      TakeTo(s.hist, g, s.t.head, g'.spot);
    } else {
      SettleTo(s.hist, g, g'.index, g'.spot);
    }
  }

  // ---------------------------------------------------------------- at a slot

  /** The slot the lookup loads from next. */
  ghost function Loads(s: State, g: Gang): Entry<Id>
    requires Inside(g) && Known(s, g.spot.node) && RecOk(Mem(s, g.spot.node))
  {
    Mem(s, g.spot.node).slots[Digit(g.index, Mem(s, g.spot.node).shift)]
  }

  /** The node serves every index under the same slot, and the next slot of the node as well. */
  lemma SameSlot(r: Rec<Id>, a: nat, k: nat)
    requires RecOk(r) && Covers(r, a)
    ensures Shr(k, r.shift) == Shr(a, r.shift) ==> Covers(r, k) && Digit(k, r.shift) == Digit(a, r.shift)
    ensures Shr(k, r.shift) == Shr(a, r.shift) + 1 && Digit(a, r.shift) != 63 ==> Covers(r, k)
  {
    assert Shr(k, r.shift + 6) == Shr(k, r.shift) / 64 && Shr(a, r.shift + 6) == Shr(a, r.shift) / 64;
  }

  /** An empty slot settles every index below it. */
  lemma EmptySlot(s: State, g: Gang, k: nat)
    requires Inv(s) && GangOk(s, g) && Inside(g) && Loads(s, g) == Null
    requires k < WORD && Shr(k, Mem(s, g.spot.node).shift) == Shr(g.index, Mem(s, g.spot.node).shift)
    ensures Gone(s.hist, g.began, k)
  {
    SameSlot(Mem(s, g.spot.node), g.index, k);
    SlotShows(s, Reader(k, g.began, In(g.spot.node)));
  }

  lemma SkipKeeps(s: State, g: Gang)
    requires Inv(s) && GangOk(s, g) && Inside(g) && Loads(s, g) == Null
    ensures GangOk(s, Skip(g, g.spot.node, Mem(s, g.spot.node)))
  {
    var n := g.spot.node;
    var r := Mem(s, n);
    var q := Shr(g.index, r.shift);
    var g' := Skip(g, n, r);
    FirstIn(r.shift, q + 1);
    forall k: nat {:trigger Gone(s.hist, g.began, k)} | g.index <= k < g'.index ensures Gone(s.hist, g.began, k) {
      FirstBelow(k, r.shift, q + 1);
      ShrMono(g.index, k, r.shift);
      EmptySlot(s, g, k);
    }
    FirstBelow(g.index, r.shift, q + 1);
    SettleTo(s.hist, g, g'.index, g'.spot);
    SameSlot(r, g.index, g'.index);
  }

  /** In a leaf, the next index has the next slot. */
  lemma LeafNext(r: Rec<Id>, k: nat)
    requires r.shift == 0 && Covers(r, k)
    ensures (k + 1) % 64 != 0 ==> Covers(r, k + 1)
  {
    LeafKey(r, k);
    LeafKey(r, k + 1);
  }

  lemma NextKeeps(s: State, g: Gang)
    requires Inv(s) && GangOk(s, g) && (g.spot.Body? || g.spot.Step?) && Loads(s, g) == Null
    ensures GangOk(s, Next(g, Step(g.spot.node)))
  {
    var g' := Next(g, Step(g.spot.node));
    LeafNext(Mem(s, g.spot.node), g.index);
    forall k: nat {:trigger Gone(s.hist, g.began, k)} | g.index <= k < g'.index ensures Gone(s.hist, g.began, k) {
      EmptySlot(s, g, k);
    }
    SettleTo(s.hist, g, g'.index, g'.spot);
  }

  lemma TakeKeeps(s: State, g: Gang)
    requires Inv(s) && GangOk(s, g) && g.spot.Body? && Loads(s, g).Data()
    ensures GangOk(s, Take(g, Loads(s, g), Next(g, Step(g.spot.node))))
  {
    var v := Loads(s, g);
    SlotShows(s, Reader(g.index, g.began, In(g.spot.node)));
    LeafNext(Mem(s, g.spot.node), g.index);
    TakeTo(s.hist, g, v, Take(g, v, Next(g, Step(g.spot.node))).spot);
  }

  lemma GoKeeps(s: State, g: Gang)
    requires Inv(s) && GangOk(s, g) && (g.spot.Enter? || g.spot.Reload?) && Loads(s, g) != Null
    ensures GangOk(s, Go(g, g.spot.node, Mem(s, g.spot.node), Loads(s, g)))
  {
    var n := g.spot.node;
    var rd := Reader(g.index, g.began, In(n));
    var g' := Go(g, n, Mem(s, n), Loads(s, g));
    SlotShows(s, rd);
    LeafOnly(s, n, Digit(g.index, Mem(s, n).shift));
    if g'.spot.Enter? {
      KnownOk(s, g'.spot.node);
      assert ReaderOk(s, rd.(place := In(g'.spot.node)));
    }
    SettleTo(s.hist, g, g.index, g'.spot);
  }

  /** Entries and markers are found in leaves only. */
  lemma LeafOnly(s: State, n: Id, i: nat)
    requires Inv(s) && Known(s, n) && RecOk(Mem(s, n)) && i < 64
    ensures Mem(s, n).slots[i] == Null || Mem(s, n).slots[i].Internal? || Mem(s, n).shift == 0
  {
    if n in s.t.nodes { assert SlotOk(s.t.nodes, n, i); } else { assert DeadOk(s, n) && DeadSlotOk(s, n, i); }
  }

  lemma KnownOk(s: State, n: Id)
    requires Inv(s) && Known(s, n)
    ensures RecOk(Mem(s, n))
  {
    if n !in s.t.nodes { assert DeadOk(s, n); }
  }

  lemma NodeKeeps(s: State, g: Gang)
    requires Inv(s) && GangOk(s, g) && Inside(g)
    ensures GangOk(s, AtNode(s, g))
  {
    var v := Loads(s, g);
    match g.spot {
      case Enter(n) => if v == Null { SkipKeeps(s, g); } else { GoKeeps(s, g); }
      case Scan(n) => if v == Null { SkipKeeps(s, g); } else { Turn(s, g, Reload(n)); }
      case Reload(n) => if v == Null { Turn(s, g, Start); } else { GoKeeps(s, g); }
      case Step(n) => if v == Null { NextKeeps(s, g); } else { Turn(s, g, Body(n)); }
      case Body(n) =>
        if v == Null { NextKeeps(s, g); } else if v.Data() { TakeKeeps(s, g); } else { Turn(s, g, Start); }
    }
  }

  /** Nothing settled: another load at the same index. */
  lemma Turn(s: State, g: Gang, spot: Spot)
    requires Inv(s) && GangOk(s, g) && Inside(g)
    requires spot.Start? || spot == Reload(g.spot.node) || (g.spot.Step? && spot == Body(g.spot.node))
    ensures GangOk(s, g.(spot := spot))
  {
    SettleTo(s.hist, g, g.index, spot);
  }

  // ---------------------------------------------------------------- a step of anyone else keeps it

  /** The steps of the writer that build nodes or take them out. */
  predicate Reshapes(a: Action) { a.Publish? || a.Branch? || a.Trim? || a.Shrink? || a.MarkRetry? }

  /** A node never changes its level. */
  lemma LevelStays(s: State, a: Action, n: Id)
    requires Inv(s) && Enabled(s, a) && Known(s, n)
    ensures Known(Do(s, a), n) && Mem(Do(s, a), n).shift == Mem(s, n).shift
  {
    Apart(s);
    if Reshapes(a) { LevelReshaped(s, a, n); }
  }

  lemma LevelReshaped(s: State, a: Action, n: Id)
    requires Inv(s) && Enabled(s, a) && Known(s, n) && Reshapes(a)
    ensures Known(Do(s, a), n) && Mem(Do(s, a), n).shift == Mem(s, n).shift
  {
    Apart(s);
    if a.Branch? && s.writer.at.None? {
      assert s.t.nodes == map[];
    } else if a.Trim? {
      LevelTrimmed(s, n);
    } else if a.Shrink? && s.t.head.Internal? {
      assert RecOk(s.t.nodes[s.t.head.node]) && SlotOk(s.t.nodes, s.t.head.node, 0);
    }
  }

  lemma LevelTrimmed(s: State, n: Id)
    requires Inv(s) && Enabled(s, Trim) && Known(s, n)
    ensures Known(Do(s, Trim), n) && Mem(Do(s, Trim), n).shift == Mem(s, n).shift
  {
    Apart(s);
    assert ParentOk(s.t, s.writer.node);
    if s.t.nodes[s.writer.node].count == 0 { TrimTree(s, DoTrim(s), s.writer.node); }
  }

  lemma {:induction false} Unused(readers: map<nat, Reader>) returns (f: nat)
    ensures forall r :: r in readers ==> r < f
    decreases |readers|
  {
    if readers == map[] {
      f := 0;
    } else {
      var r :| r in readers;
      assert |readers - {r}| < |readers| by { assert (readers - {r}).Keys == readers.Keys - {r}; }
      var g := Unused(readers - {r});
      f := if g > r then g else r + 1;
      forall x | x in readers ensures x < f { if x != r { assert x in readers - {r}; } }
    }
  }

  /** Another reader that started when the lookup began and stands where it stands. */
  ghost function Shadow(g: Gang): Reader {
    if Inside(g) then Reader(g.index, g.began, In(g.spot.node)) else Reader(0, g.began, Top)
  }

  /** The step does not end the reader that holds the lookup's read lock. */
  ghost predicate Locked(s: State, g: Gang, r: nat) { r in s.readers && s.readers[r].start <= g.began }

  /** What a step does to the memory does not depend on the readers. */
  lemma SameButReaders(s: State, s2: State, a: Action)
    requires Inv(s) && Inv(s2) && Enabled(s, a) && Enabled(s2, a) && s2 == s.(readers := s2.readers)
    ensures Do(s2, a).(readers := Do(s, a).readers) == Do(s, a)
  {
    if Reshapes(a) { SameReshaped(s, s2, a); } else { SameOther(s, s2, a); }
  }

  lemma SameOther(s: State, s2: State, a: Action)
    requires Inv(s) && Inv(s2) && Enabled(s, a) && Enabled(s2, a) && s2 == s.(readers := s2.readers) && !Reshapes(a)
    ensures Do(s2, a).(readers := Do(s, a).readers) == Do(s, a)
  {
    if OfReaders(a) {
      OnlyReaders(s, a);
      OnlyReaders(s2, a);
    } else {
      SameWritten(s, s2, a);
    }
  }

  lemma OnlyReaders(s: State, a: Action)
    requires Inv(s) && Enabled(s, a) && OfReaders(a)
    ensures Do(s, a) == s.(readers := Do(s, a).readers)
  {
  }

  lemma SameWritten(s: State, s2: State, a: Action)
    requires Inv(s) && Inv(s2) && Enabled(s, a) && Enabled(s2, a) && s2 == s.(readers := s2.readers)
    requires !Reshapes(a) && !OfReaders(a)
    ensures Do(s2, a).(readers := Do(s, a).readers) == Do(s, a)
  {
  }

  lemma SameReshaped(s: State, s2: State, a: Action)
    requires Inv(s) && Inv(s2) && Enabled(s, a) && Enabled(s2, a) && s2 == s.(readers := s2.readers) && Reshapes(a)
    ensures Do(s2, a).(readers := Do(s, a).readers) == Do(s, a)
  {
    if a.Trim? {
      SameTrimmed(s, s2);
    } else if a.Shrink? {
      SameShrunk(s, s2);
    } else if a.MarkRetry? {
      SameMarked(s, s2);
    } else {
      SameGrown(s, s2, a);
    }
  }

  lemma SameGrown(s: State, s2: State, a: Action)
    requires Inv(s) && Inv(s2) && Enabled(s, a) && Enabled(s2, a) && s2 == s.(readers := s2.readers) &&
      (a.Publish? || a.Branch?)
    ensures Do(s2, a).(readers := Do(s, a).readers) == Do(s, a)
  {
  }

  lemma SameTrimmed(s: State, s2: State)
    requires Inv(s) && Inv(s2) && s.writer.Trimming? && s2 == s.(readers := s2.readers)
    ensures DoTrim(s2).(readers := s.readers) == DoTrim(s)
  {
    assert ParentOk(s.t, s.writer.node);
    assert s2.t == s.t && s2.hist == s.hist;
  }

  lemma SameShrunk(s: State, s2: State)
    requires Inv(s) && Inv(s2) && s.writer == Shrinking && s2 == s.(readers := s2.readers)
    ensures DoShrink(s2).(readers := s.readers) == DoShrink(s)
  {
  }

  lemma SameMarked(s: State, s2: State)
    requires Inv(s) && Inv(s2) && s.writer.Retrying? && s2 == s.(readers := s2.readers)
    ensures DoMarkRetry(s2).(readers := s.readers) == DoMarkRetry(s)
  {
  }

  /** One more reader in the place of the lookup. */
  lemma Join(s: State, g: Gang, x: nat)
    requires Inv(s) && GangOk(s, g) && x !in s.readers
    ensures Inv(s.(readers := s.readers[x := Shadow(g)]))
  {
    var s2 := s.(readers := s.readers[x := Shadow(g)]);
    forall y | y in s2.readers ensures ReaderOk(s, s2.readers[y]) { if y != x { assert ReaderOk(s, s.readers[y]); } }
    KeepReaders(s, s2);
  }

  /** The step can still be taken then. */
  lemma JoinEnabled(s: State, a: Action, g: Gang, r: nat, x: nat)
    requires Inv(s) && Enabled(s, a) && Locked(s, g, r) && x !in s.readers && !(a.Begin? && a.r == x)
    ensures Enabled(s.(readers := s.readers[x := Shadow(g)]), a)
  {
  }

  lemma SameReader(s: State, s2: State, rd: Reader)
    requires s2.(readers := s.readers) == s && ReaderOk(s2, rd)
    ensures ReaderOk(s, rd)
  {
  }

  /** So nothing such a reader could use is reclaimed by the step. */
  lemma ShadowStays(s: State, a: Action, g: Gang, r: nat)
    requires Inv(s) && Enabled(s, a) && GangOk(s, g) && Locked(s, g, r)
    ensures ReaderOk(Do(s, a), Shadow(g))
  {
    var f := Unused(s.readers);
    var x := if a.Begin? && a.r >= f then a.r + 1 else f;
    var s2 := s.(readers := s.readers[x := Shadow(g)]);
    Join(s, g, x);
    JoinEnabled(s, a, g, r, x);
    ShadowKept(s2, a, x);
    SameButReaders(s, s2, a);
    SameReader(Do(s, a), Do(s2, a), Shadow(g));
  }

  /** A reader moves only by steps of its own. */
  lemma ReadersStay(s: State, a: Action, x: nat)
    requires Inv(s) && Enabled(s, a) && x in s.readers
    requires !((a.LoadHead? || a.LoadSlot? || a.End?) && a.r == x)
    ensures x in Do(s, a).readers && Do(s, a).readers[x] == s.readers[x]
  {
    if !OfReaders(a) { NotOfReaders(s, a); }
  }

  lemma ShadowKept(s: State, a: Action, x: nat)
    requires Inv(s) && Enabled(s, a) && x in s.readers
    requires !((a.LoadHead? || a.LoadSlot? || a.End?) && a.r == x)
    ensures ReaderOk(Do(s, a), s.readers[x])
  {
    Kept(s, a);
    ReadersStay(s, a, x);
    assert ReaderOk(Do(s, a), Do(s, a).readers[x]);
  }

  /** What was settled and found stays so. */
  lemma Later(hist: seq<Map>, hist': seq<Map>, g: Gang)
    requires g.began < |hist| <= |hist'| && hist'[..|hist|] == hist && Settled(hist, g) && HitsOk(hist, g)
    ensures Settled(hist', g) && HitsOk(hist', g)
  {
    forall k: nat {:trigger Seen(hist', g.began, k, g.hits)} | g.first <= k < g.index
      ensures Seen(hist', g.began, k, g.hits)
    {
      assert Seen(hist, g.began, k, g.hits);
      if Gone(hist, g.began, k) { ShownStill(hist, hist', k, g.began, Null); }
    }
    forall i: nat {:trigger HitOk(hist', g, i)} | i < |g.hits| ensures HitOk(hist', g, i) {
      assert HitOk(hist, g, i);
      ShownStill(hist, hist', g.hits[i].key, g.began, g.hits[i].entry);
    }
  }

  lemma ShownStill(hist: seq<Map>, hist': seq<Map>, k: nat, a: nat, v: Entry<Id>)
    requires a < |hist| <= |hist'| && hist'[..|hist|] == hist && Shown(hist, k, a, |hist| - 1, v)
    ensures Shown(hist', k, a, |hist'| - 1, v)
  {
    var m :| a <= m <= |hist| - 1 && v == Get(hist[m], k);
    assert hist'[m] == hist'[..|hist|][m] == hist[m];
  }

  lemma GangStays(s: State, a: Action, g: Gang, r: nat)
    requires Inv(s) && Enabled(s, a) && GangOk(s, g) && Locked(s, g, r)
    ensures GangOk(Do(s, a), g)
  {
    Kept(s, a);
    ShadowStays(s, a, g, r);
    HistGrows(s, a);
    Later(s.hist, Do(s, a).hist, g);
    if Inside(g) {
      LevelStays(s, a, g.spot.node);
      KnownOk(Do(s, a), g.spot.node);
    }
  }

  // ---------------------------------------------------------------- whole lookups

  /** What can happen while the lookup is under way. */
  datatype Move = Other(action: Action) | Load

  datatype Config = Config(s: State, g: Gang)

  /** radix_tree_gang_lookup is called, or radix_tree_for_each_slot begins. */
  ghost function Open(s: State, first: nat, max: nat): Gang
    requires s.hist != []
  {
    Gang(first, max, Now(s), first, if max == 0 then Over else Start, [])
  }

  lemma OpenOk(s: State, first: nat, max: nat, r: nat)
    requires Inv(s) && first < WORD && r in s.readers
    ensures GangOk(s, Open(s, first, max)) && Locked(s, Open(s, first, max), r)
  {
    assert ReaderOk(s, s.readers[r]);
  }

  ghost predicate Can(c: Config, r: nat, m: Move)
    requires Inv(c.s)
  {
    match m
    case Other(a) => Enabled(c.s, a) && a != End(r)
    case Load => !c.g.spot.Over?
  }

  ghost predicate ConfigOk(c: Config, r: nat) { Inv(c.s) && GangOk(c.s, c.g) && Locked(c.s, c.g, r) }

  ghost function Make(c: Config, r: nat, m: Move): Config
    requires ConfigOk(c, r) && Can(c, r, m)
  {
    match m
    case Other(a) => c.(s := Do(c.s, a))
    case Load => c.(g := if Inside(c.g) then AtNode(c.s, c.g) else AtHead(c.s, c.g))
  }

  lemma MakeKeeps(c: Config, r: nat, m: Move)
    requires ConfigOk(c, r) && Can(c, r, m)
    ensures ConfigOk(Make(c, r, m), r)
    ensures var g := Make(c, r, m).g; g.first == c.g.first && g.max == c.g.max && g.began == c.g.began
  {
    match m
    case Other(a) =>
      Kept(c.s, a);
      GangStays(c.s, a, c.g, r);
      LockHeld(c.s, a, c.g, r);
    case Load =>
      if Inside(c.g) {
        NodeKeeps(c.s, c.g);
      } else if c.g.spot.Head? {
        HeadKeeps(c.s, c.g);
      } else {
        StartKeeps(c.s, c.g);
      }
  }

  lemma LockHeld(s: State, a: Action, g: Gang, r: nat)
    requires Inv(s) && Enabled(s, a) && Locked(s, g, r) && a != End(r)
    ensures Locked(Do(s, a), g, r)
  {
    if !OfReaders(a) { NotOfReaders(s, a); }
  }

  /** The state after a lookup under the read lock of reader r, interleaved with any steps of the writer, of other
      readers and of the reclaimer; None if a step is not enabled or the read lock is given up. */
  ghost function Lookup(s: State, first: nat, max: nat, r: nat, run: seq<Move>): (o: Option<Config>)
    requires Inv(s) && first < WORD && r in s.readers
    ensures o.Some? ==> ConfigOk(o.value, r)
    ensures o.Some? ==> o.value.g.first == first && o.value.g.max == max && o.value.g.began == Now(s)
    decreases |run|
  {
    if run == [] then
      OpenOk(s, first, max, r);
      Some(Config(s, Open(s, first, max)))
    else
      var p, m := Lookup(s, first, max, r, run[..|run| - 1]), run[|run| - 1];
      if p.Some? && Can(p.value, r, m) then
        MakeKeeps(p.value, r, m);
        Some(Make(p.value, r, m))
      else None
  }

  /** The indices a finished lookup speaks for: all from the first one on, or, when it is full, those up to its last
      result. */
  ghost function Limit(g: Gang): nat {
    if |g.hits| < g.max || g.hits == [] then (if g.max == 0 then g.first else WORD) else g.hits[|g.hits| - 1].key + 1
  }

  /** Every result is an entry that its index held at some moment of the lookup, and they come in ascending order. */
  lemma ResultsWereThere(s: State, first: nat, max: nat, r: nat, run: seq<Move>, i: nat)
    requires Inv(s) && first < WORD && r in s.readers && Lookup(s, first, max, r, run).Some?
    requires i < |Lookup(s, first, max, r, run).value.g.hits|
    ensures var c := Lookup(s, first, max, r, run).value;
      var h := c.g.hits[i];
      && |c.g.hits| <= max && first <= h.key && h.entry.Data() && Shown(c.s.hist, h.key, Now(s), Now(c.s), h.entry)
      && (i > 0 ==> c.g.hits[i - 1].key < h.key)
  {
    var c := Lookup(s, first, max, r, run).value;
    assert HitOk(c.s.hist, c.g, i);
  }

  /** k was present at every moment from a to b. */
  ghost predicate Present(hist: seq<Map>, k: nat, a: nat, b: nat)
    requires b < |hist|
  {
    forall m {:trigger hist[m]} :: a <= m <= b ==> Get(hist[m], k) != Null
  }

  /** k held v at every moment from a to b. */
  ghost predicate Steady(hist: seq<Map>, k: nat, a: nat, b: nat, v: Entry<Id>)
    requires b < |hist|
  {
    forall m {:trigger hist[m]} :: a <= m <= b ==> Get(hist[m], k) == v
  }

  /** Every index that was present throughout a finished lookup is among its results, unless they are full before
      it. */
  lemma PresentIsCollected(s: State, first: nat, max: nat, r: nat, run: seq<Move>, k: nat)
    requires Inv(s) && first < WORD && r in s.readers && Lookup(s, first, max, r, run).Some?
    requires var c := Lookup(s, first, max, r, run).value;
      c.g.spot.Over? && first <= k < Limit(c.g) && Present(c.s.hist, k, Now(s), Now(c.s))
    ensures AmongHits(Lookup(s, first, max, r, run).value.g.hits, k)
  {
    var c := Lookup(s, first, max, r, run).value;
    LimitSettled(c.s, c.g, k);
  }

  lemma LimitSettled(s: State, g: Gang, k: nat)
    requires GangOk(s, g) && g.spot.Over? && g.first <= k < Limit(g)
    ensures Seen(s.hist, g.began, k, g.hits)
  {
    if g.hits != [] { assert HitOk(s.hist, g, |g.hits| - 1); }
  }

  /** And if it held one entry throughout, that is the entry returned. */
  lemma SteadyIsCollected(s: State, first: nat, max: nat, r: nat, run: seq<Move>, i: nat, v: Entry<Id>)
    requires Inv(s) && first < WORD && r in s.readers && Lookup(s, first, max, r, run).Some?
    requires var c := Lookup(s, first, max, r, run).value;
      i < |c.g.hits| && Steady(c.s.hist, c.g.hits[i].key, Now(s), Now(c.s), v)
    ensures Lookup(s, first, max, r, run).value.g.hits[i].entry == v
  {
    ResultsWereThere(s, first, max, r, run, i);
  }

  /** The node a lookup is about to load from has not been reclaimed, and a step of the lookup is always possible
      until it is over. */
  lemma GangReadsNoFreedNode(s: State, first: nat, max: nat, r: nat, run: seq<Move>)
    requires Inv(s) && first < WORD && r in s.readers && Lookup(s, first, max, r, run).Some?
    requires !Lookup(s, first, max, r, run).value.g.spot.Over?
    ensures var c := Lookup(s, first, max, r, run).value;
      && (Inside(c.g) ==> Known(c.s, c.g.spot.node) && c.g.spot.node !in c.s.reclaimed)
      && Lookup(s, first, max, r, run + [Load]).Some?
  {
    assert (run + [Load])[..|run|] == run;
  }

  // ---------------------------------------------------------------- a lookup alone

  /** How far a load at a node of this shift is from the next index, if nothing else happens. */
  ghost function Ahead(spot: Spot, shift: nat, v: Entry<Id>): nat {
    match spot
    case Enter(_) => 10 + shift
    case Scan(_) => 12 + shift
    case Reload(_) => if v == Null then 200 else 11 + shift
    case Step(_) => 2
    case _ => 1
  }

  /** ... and any load: from a node that has left the tree the lookup goes over to the tree first. */
  ghost function ToNext(s: State, g: Gang): nat {
    if Inside(g) then
      if Known(s, g.spot.node) && RecOk(Mem(s, g.spot.node)) then
        Ahead(g.spot, Mem(s, g.spot.node).shift, Loads(s, g)) + if g.spot.node in s.t.nodes then 0 else 1000
      else 0
    else if g.spot.Start? then 100
    else if g.spot.Head? && s.t.head.Internal? then 101
    else 0
  }

  ghost predicate Advances(s: State, g: Gang, g': Gang) {
    g'.spot.Over? || g.index < g'.index || (g.index == g'.index && ToNext(s, g') < ToNext(s, g))
  }

  lemma HeadAdvances(s: State, g: Gang)
    requires Inv(s) && GangOk(s, g) && (g.spot.Start? || g.spot.Head?)
    ensures Advances(s, g, AtHead(s, g))
  {
    HeadShows(s, g.index);
    if s.t.head.Internal? { assert RecOk(s.t.nodes[s.t.head.node]); }
  }

  lemma GoAdvances(s: State, g: Gang)
    requires Inv(s) && GangOk(s, g) && (g.spot.Enter? || g.spot.Reload?) && Loads(s, g) != Null
    ensures Advances(s, g, Go(g, g.spot.node, Mem(s, g.spot.node), Loads(s, g)))
  {
    var n := g.spot.node;
    GoKeeps(s, g);
    if n in s.t.nodes {
      LocklessRuns.LiveCounts(s, g.index, n);
    } else {
      LocklessRuns.DeadCounts(s, g.index, n);
    }
  }

  lemma SkipAdvances(s: State, g: Gang)
    requires Inv(s) && GangOk(s, g) && Inside(g)
    ensures Advances(s, g, Skip(g, g.spot.node, Mem(s, g.spot.node)))
  {
    FirstBelow(g.index, Mem(s, g.spot.node).shift, Shr(g.index, Mem(s, g.spot.node).shift) + 1);
  }

  lemma NodeAdvances(s: State, g: Gang)
    requires Inv(s) && GangOk(s, g) && Inside(g)
    ensures Advances(s, g, AtNode(s, g))
  {
    var n, v := g.spot.node, Loads(s, g);
    if n in s.t.nodes { LocklessRuns.LiveCounts(s, g.index, n); }
    if (g.spot.Enter? || g.spot.Scan?) && v == Null { SkipAdvances(s, g); }
    if (g.spot.Enter? || g.spot.Reload?) && v != Null { GoAdvances(s, g); }
  }

  /** The configuration after n loads of the lookup and nothing else. */
  ghost function AfterLoads(c: Config, r: nat, n: nat): (o: Option<Config>)
    requires ConfigOk(c, r)
    ensures o.Some? ==> ConfigOk(o.value, r)
    ensures o.Some? ==> o.value.s == c.s
    ensures o.Some? ==>
      o.value.g.first == c.g.first && o.value.g.max == c.g.max && o.value.g.began == c.g.began
    decreases n
  {
    if n == 0 then Some(c)
    else if c.g.spot.Over? then None
    else
      MakeKeeps(c, r, Load);
      AfterLoads(Make(c, r, Load), r, n - 1)
  }

  lemma LoadAdvances(c: Config, r: nat)
    requires ConfigOk(c, r) && !c.g.spot.Over?
    ensures ConfigOk(Make(c, r, Load), r) && Make(c, r, Load).s == c.s && Advances(c.s, c.g, Make(c, r, Load).g)
  {
    MakeKeeps(c, r, Load);
    if Inside(c.g) { NodeAdvances(c.s, c.g); } else { HeadAdvances(c.s, c.g); }
  }

  /** A gang lookup that is left alone ends. */
  lemma {:induction false} GangEnds(c: Config, r: nat) returns (n: nat)
    requires ConfigOk(c, r)
    ensures AfterLoads(c, r, n).Some? && AfterLoads(c, r, n).value.g.spot.Over?
    decreases if c.g.spot.Over? then 0 else 1, WORD - c.g.index, ToNext(c.s, c.g)
  {
    if c.g.spot.Over? {
      n := 0;
    } else {
      LoadAdvances(c, r);
      var m := GangEnds(Make(c, r, Load), r);
      n := m + 1;
    }
  }

  /** Then its results are the entries of the first `max` indices present from `first` on. */
  lemma GangAlone(s: State, first: nat, max: nat, r: nat) returns (n: nat)
    requires Inv(s) && first < WORD && r in s.readers
    ensures ConfigOk(Config(s, Open(s, first, max)), r) && AfterLoads(Config(s, Open(s, first, max)), r, n).Some?
    ensures var g := AfterLoads(Config(s, Open(s, first, max)), r, n).value.g;
      && g.spot.Over? && |g.hits| <= max
      && (forall i: nat {:trigger g.hits[i]} :: i < |g.hits| ==>
          && first <= g.hits[i].key && g.hits[i].entry == Get(Current(s), g.hits[i].key) && g.hits[i].entry.Data()
          && (i > 0 ==> g.hits[i - 1].key < g.hits[i].key))
      && (forall k: nat {:trigger AmongHits(g.hits, k)} :: first <= k < Limit(g) && k in Current(s) ==>
          AmongHits(g.hits, k))
  {
    OpenOk(s, first, max, r);
    var c := Config(s, Open(s, first, max));
    n := GangEnds(c, r);
    AloneResults(AfterLoads(c, r, n).value, r, s);
  }

  lemma AloneResults(c: Config, r: nat, s: State)
    requires ConfigOk(c, r) && c.s == s && c.g.began == Now(s) && c.g.spot.Over?
    ensures forall i: nat {:trigger c.g.hits[i]} :: i < |c.g.hits| ==>
      && c.g.first <= c.g.hits[i].key && c.g.hits[i].entry == Get(Current(s), c.g.hits[i].key)
      && c.g.hits[i].entry.Data() && (i > 0 ==> c.g.hits[i - 1].key < c.g.hits[i].key)
    ensures forall k: nat {:trigger AmongHits(c.g.hits, k)} :: c.g.first <= k < Limit(c.g) && k in Current(s) ==>
      AmongHits(c.g.hits, k)
  {
    forall i: nat {:trigger c.g.hits[i]} | i < |c.g.hits|
      ensures c.g.first <= c.g.hits[i].key && c.g.hits[i].entry == Get(Current(s), c.g.hits[i].key)
      ensures c.g.hits[i].entry.Data() && (i > 0 ==> c.g.hits[i - 1].key < c.g.hits[i].key)
    {
      assert HitOk(s.hist, c.g, i);
    }
    forall k: nat {:trigger AmongHits(c.g.hits, k)} | c.g.first <= k < Limit(c.g) && k in Current(s)
      ensures AmongHits(c.g.hits, k)
    {
      LimitSettled(s, c.g, k);
      HeldData(s, k);
    }
  }

  lemma HeldData(s: State, k: nat)
    requires Inv(s) && k in Current(s)
    ensures Get(Current(s), k) != Null
  {
  }
}
