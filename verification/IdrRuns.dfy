/** Runs of an allocator: any sequence of allocations and removals of ids. */
module IdrRuns {
  import opened Errno
  import opened Words
  import opened TreeHeap
  import opened RadixTree
  import opened Idr

  datatype Request =
    | AllocId(start: nat, max: nat, ptr: Entry<Node>)    // the least free id from start to max
    | RemoveId(id: nat)                                  // radix_tree_delete_item with NULL

  datatype Reply = Got(id: nat) | NoIds | NoNodes | Removed(entry: Entry<Node>)

  ghost predicate Legal(q: Request) {
    match q
    case AllocId(_, max, ptr) => max < ID_LIMIT && (ptr.Data() || ptr == Null)
    case RemoveId(id) => id < WORD
  }

  /** The replies an allocator may give when the ids in M are taken. Memory may run out only where there is an id. */
  ghost predicate Right(M: Content<Node>, q: Request, p: Reply) {
    match q
    case AllocId(start, max, _) => (
      match p
      case Got(id) => LeastFree(M, start, max, id)
      case NoIds => Taken(M, start, max + 1)
      case NoNodes => !Taken(M, start, max + 1)
      case Removed(_) => false)
    case RemoveId(id) => p == Removed(if id in M then M[id] else Null)
  }

  ghost function Served(M: Content<Node>, q: Request, p: Reply): Content<Node> {
    match q
    case AllocId(_, _, ptr) => if p.Got? then M[p.id := ptr] else M
    case RemoveId(id) => M - {id}
  }

  /** The ids taken after a run; None if a reply was not right. */
  ghost function After(M: Content<Node>, qs: seq<Request>, ps: seq<Reply>): (o: Option<Content<Node>>)
    requires |qs| == |ps|
    decreases |qs|
  {
    if qs == [] then Some(M)
    else
      var n := |qs| - 1;
      var before := After(M, qs[..n], ps[..n]);
      if before.Some? && Right(before.value, qs[n], ps[n]) then Some(Served(before.value, qs[n], ps[n])) else None
  }

  lemma {:induction false} RightSoFar(M: Content<Node>, qs: seq<Request>, ps: seq<Reply>, n: nat)
    requires |qs| == |ps| && n <= |qs| && After(M, qs, ps).Some?
    ensures After(M, qs[..n], ps[..n]).Some?
    decreases |qs|
  {
    if n < |qs| {
      var m := |qs| - 1;
      RightSoFar(M, qs[..m], ps[..m], n);
      assert qs[..m][..n] == qs[..n] && ps[..m][..n] == ps[..n];
    } else {
      assert qs[..n] == qs && ps[..n] == ps;
    }
  }

  /** One more request of a run. */
  lemma RunStep(M: Content<Node>, qs: seq<Request>, ps: seq<Reply>, n: nat)
    requires |qs| == |ps| && n < |qs| && After(M, qs, ps).Some?
    ensures After(M, qs[..n], ps[..n]).Some? && Right(After(M, qs[..n], ps[..n]).value, qs[n], ps[n])
    ensures After(M, qs[..n + 1], ps[..n + 1]) == Some(Served(After(M, qs[..n], ps[..n]).value, qs[n], ps[n]))
  {
    RightSoFar(M, qs, ps, n);
    RightSoFar(M, qs, ps, n + 1);
    assert qs[..n + 1][..n] == qs[..n] && ps[..n + 1][..n] == ps[..n];
  }

  /** How often memory ran out. */
  function Misses(ps: seq<Reply>): nat {
    if ps == [] then 0 else Misses(ps[..|ps| - 1]) + if ps[|ps| - 1] == NoNodes then 1 else 0
  }

  lemma {:induction false} NoMisses(ps: seq<Reply>)
    ensures Misses(ps) == 0 <==> NoNodes !in ps
  {
    if ps != [] {
      NoMisses(ps[..|ps| - 1]);
      assert ps == ps[..|ps| - 1] + [ps[|ps| - 1]];
    }
  }

  /** From the allocation of an id to its removal, the id holds the pointer it was allocated for. */
  lemma {:induction false} StaysTaken(M: Content<Node>, qs: seq<Request>, ps: seq<Reply>, i: nat, j: nat)
    requires |qs| == |ps| && i < j <= |qs| && After(M, qs, ps).Some? && qs[i].AllocId? && ps[i].Got?
    requires forall l :: i < l < j ==> qs[l] != RemoveId(ps[i].id)
    ensures After(M, qs[..j], ps[..j]).Some? && ps[i].id in After(M, qs[..j], ps[..j]).value
    ensures After(M, qs[..j], ps[..j]).value[ps[i].id] == qs[i].ptr
    decreases j
  {
    RunStep(M, qs, ps, j - 1);
    if i < j - 1 { StaysTaken(M, qs, ps, i, j - 1); }
  }

  /** A removal returns the pointer that the last allocation of the id stored. */
  lemma RemovedIsStored(M: Content<Node>, qs: seq<Request>, ps: seq<Reply>, i: nat, j: nat)
    requires |qs| == |ps| && i < j < |qs| && After(M, qs, ps).Some?
    requires qs[i].AllocId? && ps[i].Got? && qs[j] == RemoveId(ps[i].id)
    requires forall l :: i < l < j ==> qs[l] != RemoveId(ps[i].id)
    ensures ps[j] == Removed(qs[i].ptr)
  {
    StaysTaken(M, qs, ps, i, j);
    RunStep(M, qs, ps, j);
  }

  /** A second removal of an id that was not given out in between returns NULL. */
  lemma RemovedOnce(M: Content<Node>, qs: seq<Request>, ps: seq<Reply>, i: nat, j: nat)
    requires |qs| == |ps| && i < j < |qs| && After(M, qs, ps).Some?
    requires qs[i].RemoveId? && qs[j] == qs[i]
    requires forall l :: i < l < j ==> ps[l] != Got(qs[i].id)
    ensures ps[j] == Removed(Null)
  {
    StaysFree(M, qs, ps, i, j);
    RunStep(M, qs, ps, j);
  }

  lemma {:induction false} StaysFree(M: Content<Node>, qs: seq<Request>, ps: seq<Reply>, i: nat, j: nat)
    requires |qs| == |ps| && i < j <= |qs| && After(M, qs, ps).Some? && qs[i].RemoveId?
    requires forall l :: i < l < j ==> ps[l] != Got(qs[i].id)
    ensures After(M, qs[..j], ps[..j]).Some? && qs[i].id !in After(M, qs[..j], ps[..j]).value
    decreases j
  {
    RunStep(M, qs, ps, j - 1);
    if i < j - 1 { StaysFree(M, qs, ps, i, j - 1); }
  }

  /** No id is given out twice, unless it was removed in between. */
  lemma NoSharing(M: Content<Node>, qs: seq<Request>, ps: seq<Reply>, i: nat, j: nat) returns (l: nat)
    requires |qs| == |ps| && i < j < |qs| && After(M, qs, ps).Some?
    requires qs[i].AllocId? && qs[j].AllocId? && ps[i].Got? && ps[j] == ps[i]
    ensures i < l < j && qs[l] == RemoveId(ps[i].id)
  {
    RunStep(M, qs, ps, j);
    if forall l :: i < l < j ==> qs[l] != RemoveId(ps[i].id) {
      StaysTaken(M, qs, ps, i, j);
      assert false;
    }
    l :| i < l < j && qs[l] == RemoveId(ps[i].id);
  }

  /** Allocations from an empty allocator that ask for any id get 0, 1, 2 and so on. */
  lemma {:induction false} CountsUp(qs: seq<Request>, ps: seq<Reply>)
    requires |qs| == |ps| && After(map[], qs, ps).Some?
    requires forall l :: 0 <= l < |qs| ==> qs[l].AllocId? && qs[l].start == 0 && ps[l].Got?
    ensures forall l :: 0 <= l < |qs| ==> ps[l] == Got(l)
    ensures forall k: nat {:trigger k in After(map[], qs, ps).value} ::
      k in After(map[], qs, ps).value <==> k < |qs|
    decreases |qs|
  {
    if qs != [] {
      var n := |qs| - 1;
      RightSoFar(map[], qs, ps, n);
      CountsUp(qs[..n], ps[..n]);
      var M := After(map[], qs[..n], ps[..n]).value;
      assert Right(M, qs[n], ps[n]) && ps[n].id !in M;
      assert ps[n].id > n ==> n in M;
      forall l | 0 <= l < |qs| ensures ps[l] == Got(l) { if l < n { assert ps[..n][l] == ps[l]; } }
    }
  }

  /** A removed id is the next one to be given out to a request it is the least for. */
  lemma ReusesRemoved(M: Content<Node>, qs: seq<Request>, ps: seq<Reply>, i: nat)
    requires |qs| == |ps| && i + 1 < |qs| && After(M, qs, ps).Some?
    requires qs[i].RemoveId? && qs[i + 1].AllocId? && ps[i + 1].Got? && qs[i + 1].start <= qs[i].id <= qs[i + 1].max
    requires After(M, qs[..i], ps[..i]).Some?
    requires Taken(After(M, qs[..i], ps[..i]).value, qs[i + 1].start, qs[i].id)
    ensures ps[i + 1] == Got(qs[i].id)
  {
    RunStep(M, qs, ps, i);
    RunStep(M, qs, ps, i + 1);
    var M1 := After(M, qs[..i + 1], ps[..i + 1]).value;
    var k, id := qs[i].id, ps[i + 1].id;
    assert id > k ==> k in M1;
  }

  /** One request. */
  method Answer(root: Root, q: Request) returns (p: Reply)
    requires root.Ok() && root.idr && HeadShift(root.t) <= 60 && Legal(q)
    modifies root, root.pool, root.t.nodes.Keys
    ensures root.Ok() && HeadShift(root.t) <= 60
    ensures forall n :: n in root.t.nodes ==> n in old(root.t).nodes || fresh(n)
    ensures Right(old(root.M), q, p) && root.M == Served(old(root.M), q, p)
    ensures p == NoNodes ==> root.pool.nr == 0
    ensures root.pool.failures == old(root.pool.failures) + if p == NoNodes then 1 else 0
  {
    match q {
      case AllocId(start, max, ptr) =>
        var err, id := Alloc(root, start, max, ptr);
        p := if err == 0 then Got(id) else if err == -ENOSPC then NoIds else NoNodes;
      case RemoveId(id) =>
        var entry := root.DeleteItem(id, Null);
        assert id !in old(root.M) ==> old(root.M) - {id} == old(root.M);
        p := Removed(entry);
    }
  }

  /** Any requests, one after the other, on an allocator in any state: every reply is right for what was taken then,
      and memory runs out as often as an allocation of a node fails. */
  method Run(root: Root, qs: seq<Request>) returns (ps: seq<Reply>)
    requires root.Ok() && root.idr && HeadShift(root.t) <= 60 && forall q :: q in qs ==> Legal(q)
    modifies root, root.pool, root.t.nodes.Keys
    ensures root.Ok() && HeadShift(root.t) <= 60
    ensures |ps| == |qs| && After(old(root.M), qs, ps) == Some(root.M)
    ensures root.pool.failures == old(root.pool.failures) + Misses(ps)
    ensures root.pool.failures == old(root.pool.failures) ==> NoNodes !in ps
  {
    ps := [];
    ghost var M0 := root.M;
    while |ps| < |qs|
      invariant |ps| <= |qs| && root.Ok() && HeadShift(root.t) <= 60
      invariant forall n :: n in root.t.nodes ==> n in old(root.t).nodes || fresh(n)
      invariant After(M0, qs[..|ps|], ps) == Some(root.M)
      invariant root.pool.failures == old(root.pool.failures) + Misses(ps)
    {
      var n := |ps|;
      var p := Answer(root, qs[n]);
      assert qs[..n + 1][..n] == qs[..n] && (ps + [p])[..n] == ps;
      ps := ps + [p];
    }
    assert qs[..|qs|] == qs;
    NoMisses(ps);
  }
}
