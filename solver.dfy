/** The best-first puzzle solver: search nodes wrap a world state together
    with the number of moves that led to it, a minimum priority queue orders
    them by moves plus the state's estimated distance to the goal, and the
    first goal taken from the queue ends the search. */
module PuzzleSolver {
  import opened Common

  /** What the solver asks of a world state: its neighbours, whether it is a
      goal, the state's own equality and its estimated distance to the goal. */
  datatype World<!W> = World(
    neighbors: W -> seq<W>,
    isGoal: W -> bool,
    equals: (W, W) -> bool,
    estimatedDistanceToGoal: W -> int)

  /** A state reached in `moves` moves, through `previous`. */
  datatype SearchNode<W> = SearchNode(ws: W, moves: int, previous: Option<SearchNode<W>>, distanceToGoal: int)

  /** The search node constructor: the initial node has 0 moves, a child one
      more than its parent. */
  function MakeNode<W>(w: World<W>, ws: W, previous: Option<SearchNode<W>>): (r: SearchNode<W>)
    ensures r.ws == ws && r.previous == previous && r.distanceToGoal == w.estimatedDistanceToGoal(ws)
    ensures previous.None? ==> r.moves == 0
    ensures previous.Some? ==> r.moves == previous.value.moves + 1
  {
    SearchNode(ws, if previous.Some? then previous.value.moves + 1 else 0, previous,
               w.estimatedDistanceToGoal(ws))
  }

  function Priority<W>(sn: SearchNode<W>): int {
    sn.moves + sn.distanceToGoal
  }

  /** The comparator of the priority queue. */
  function Compare<W>(o1: SearchNode<W>, o2: SearchNode<W>): (r: int)
    ensures r < 0 <==> Priority(o1) < Priority(o2)
    ensures r == 0 <==> Priority(o1) == Priority(o2)
    ensures r > 0 <==> Priority(o1) > Priority(o2)
  {
    var ob1 := o1.moves + o1.distanceToGoal;
    var ob2 := o2.moves + o2.distanceToGoal;
    ob1 - ob2
  }

  /** The comparator is a consistent order: swapping its arguments flips the
      sign, and it is transitive. */
  lemma CompareOrder<W>(a: SearchNode<W>, b: SearchNode<W>, c: SearchNode<W>)
    ensures Compare(a, b) == -Compare(b, a)
    ensures Compare(a, b) <= 0 && Compare(b, c) <= 0 ==> Compare(a, c) <= 0
  {
  }

  /** sn was built by the node constructor from `initial` outwards, each
      state one of its predecessor's neighbours. */
  ghost predicate Chain<W>(w: World<W>, initial: W, sn: SearchNode<W>)
    decreases sn
  {
    sn.distanceToGoal == w.estimatedDistanceToGoal(sn.ws) &&
    match sn.previous
    case None => sn.moves == 0 && sn.ws == initial
    case Some(p) => sn.moves == p.moves + 1 && sn.ws in w.neighbors(p.ws) && Chain(w, initial, p)
  }

  /** The states from the first node of sn's chain up to sn itself. */
  function Path<W>(sn: SearchNode<W>): seq<W>
    decreases sn
  {
    match sn.previous
    case None => [sn.ws]
    case Some(p) => Path(p) + [sn.ws]
  }

  /** A path the solver reports: it starts at `initial`, takes one move per
      step to a neighbour, and has moves + 1 states. */
  ghost predicate IsWalk<W>(w: World<W>, initial: W, path: seq<W>, moves: int) {
    moves >= 0 && |path| == moves + 1 && path[0] == initial &&
    forall k :: 0 <= k < |path| - 1 ==> path[k + 1] in w.neighbors(path[k])
  }

  lemma {:induction false} PathOfChain<W>(w: World<W>, initial: W, sn: SearchNode<W>)
    requires Chain(w, initial, sn)
    ensures IsWalk(w, initial, Path(sn), sn.moves)
    ensures Path(sn)[|Path(sn)| - 1] == sn.ws
    decreases sn
  {
    match sn.previous
    case None =>
    case Some(p) =>
      PathOfChain(w, initial, p);
      var path := Path(p) + [sn.ws];
      assert path[|path| - 2] == p.ws;
  }

  /** The neighbour the solver skips: one equal to the parent's state. */
  predicate Pruned<W>(w: World<W>, sn: SearchNode<W>, nb: W) {
    sn.previous.Some? && w.equals(nb, sn.previous.value.ws)
  }

  /** The nodes the expansion of sn enqueues for the neighbours nbs, in order. */
  function Children<W>(w: World<W>, sn: SearchNode<W>, nbs: seq<W>): seq<SearchNode<W>>
  {
    if nbs == [] then []
    else
      var last := nbs[|nbs| - 1];
      Children(w, sn, nbs[..|nbs| - 1]) + (if Pruned(w, sn, last) then [] else [MakeNode(w, last, Some(sn))])
  }

  /** The expansion skips exactly the neighbours equal to the parent's state
      and enqueues every other one as a child of sn, one move further. */
  lemma {:induction false} ChildrenMembers<W>(w: World<W>, sn: SearchNode<W>, nbs: seq<W>)
    ensures forall k :: 0 <= k < |nbs| && !Pruned(w, sn, nbs[k]) ==>
      MakeNode(w, nbs[k], Some(sn)) in Children(w, sn, nbs)
    ensures forall c :: c in Children(w, sn, nbs) ==>
      c.ws in nbs && !Pruned(w, sn, c.ws) && c.previous == Some(sn) &&
      c.moves == sn.moves + 1 && c.distanceToGoal == w.estimatedDistanceToGoal(c.ws)
  {
    if nbs != [] {
      var init := nbs[..|nbs| - 1];
      ChildrenMembers(w, sn, init);
      assert forall k :: 0 <= k < |init| ==> init[k] == nbs[k];
      assert nbs == init + [nbs[|nbs| - 1]];
    }
  }

  /** Every child of a chained node is chained. */
  lemma ChildrenChain<W>(w: World<W>, initial: W, sn: SearchNode<W>)
    requires Chain(w, initial, sn)
    ensures forall c :: c in Children(w, sn, w.neighbors(sn.ws)) ==> Chain(w, initial, c)
  {
    ChildrenMembers(w, sn, w.neighbors(sn.ws));
  }

  /** The index of the first node of least priority, as the comparator ranks
      them. */
  method MinIndex<W>(q: seq<SearchNode<W>>) returns (best: nat)
    requires |q| > 0
    ensures best < |q|
    ensures forall k :: 0 <= k < |q| ==> Priority(q[best]) <= Priority(q[k])
    ensures forall k :: 0 <= k < best ==> Priority(q[k]) > Priority(q[best])
  {
    best := 0;
    for k := 1 to |q|
      invariant best < k
      invariant forall i :: 0 <= i < k ==> Priority(q[best]) <= Priority(q[i])
      invariant forall i :: 0 <= i < best ==> Priority(q[i]) > Priority(q[best])
    {
      if Compare(q[k], q[best]) < 0 {
        best := k;
      }
    }
  }

  /** All chained, none a goal. */
  ghost predicate AllChained<W>(w: World<W>, initial: W, q: seq<SearchNode<W>>) {
    forall k :: 0 <= k < |q| ==> Chain(w, initial, q[k])
  }

  class Solver<W> {
    const world: World<W>
    ghost const initial: W
    var moves: int
    /** The priority queue, as the bag of nodes it holds. */
    var snPQ: seq<SearchNode<W>>
    var wsSolution: seq<W>
    /** The exception the search ends with, if it ends with one. */
    var failure: Option<Failure>
    /** The nodes taken from the queue, in order. */
    ghost var popped: seq<SearchNode<W>>

    /** The state while the search is running: every queued and every taken
        node is chained from the initial state and no taken node is a goal. */
    ghost predicate Searching()
      reads this
    {
      failure.None? && moves == 0 && wsSolution == [] &&
      AllChained(world, initial, snPQ) && AllChained(world, initial, popped) &&
      forall k :: 0 <= k < |popped| ==> !world.isGoal(popped[k].ws)
    }

    /** The state once the constructor returns. Without a failure, the last
        node taken is the first goal taken, `moves` is its move count and the
        solution is its path. An empty queue ends the search with
        NoSuchElement, a spent step bound with OutOfFuel. */
    ghost predicate Valid()
      reads this
    {
      AllChained(world, initial, popped) &&
      match failure
      case None =>
        |popped| > 0 &&
        (forall k :: 0 <= k < |popped| - 1 ==> !world.isGoal(popped[k].ws)) &&
        world.isGoal(popped[|popped| - 1].ws) &&
        moves == popped[|popped| - 1].moves &&
        wsSolution == Path(popped[|popped| - 1]) &&
        IsWalk(world, initial, wsSolution, moves) &&
        world.isGoal(wsSolution[moves])
      case Some(f) =>
        (f == NoSuchElement || f == OutOfFuel) &&
        (f == NoSuchElement ==> snPQ == []) &&
        forall k :: 0 <= k < |popped| ==> !world.isGoal(popped[k].ws)
    }

    /** Enqueues the initial state's node and runs the search, taking at most
        `fuel` nodes from the queue. */
    constructor (initial: W, world: World<W>, fuel: nat)
      ensures this.world == world && this.initial == initial
      ensures Valid()
      ensures fuel > 0 && world.isGoal(initial) ==> failure.None? && moves == 0 && wsSolution == [initial]
    {
      this.world := world;
      this.initial := initial;
      moves := 0;
      snPQ := [];
      wsSolution := [];
      failure := None;
      popped := [];
      new;
      snPQ := snPQ + [MakeNode(world, initial, None)];
      SolverHelper(fuel);
    }

    /** Removes and returns a node of least priority; NoSuchElement on an
        empty queue. */
    method DelMin() returns (r: Result<SearchNode<W>>)
      modifies this`snPQ
      ensures old(snPQ) == [] ==> r == Err(NoSuchElement) && snPQ == old(snPQ)
      ensures old(snPQ) != [] ==> (r.Ok? && r.value in old(snPQ) &&
        (forall k :: 0 <= k < |old(snPQ)| ==> Priority(r.value) <= Priority(old(snPQ)[k])) &&
        multiset(snPQ) + multiset{r.value} == multiset(old(snPQ)) &&
        forall k :: 0 <= k < |snPQ| ==> snPQ[k] in old(snPQ))
    {
      if snPQ == [] {
        return Err(NoSuchElement);
      }
      var best := MinIndex(snPQ);
      var min := snPQ[best];
      assert snPQ == snPQ[..best] + [min] + snPQ[best + 1..];
      snPQ := snPQ[..best] + snPQ[best + 1..];
      r := Ok(min);
    }

    /** Enqueues, as children of removedSN and in the order of its neighbours,
        every neighbour except one equal to its parent's state. */
    method GetNeighbors(removedSN: SearchNode<W>)
      modifies this`snPQ
      ensures snPQ == old(snPQ) + Children(world, removedSN, world.neighbors(removedSN.ws))
    {
      var nbs := world.neighbors(removedSN.ws);
      var nbGrandParent := removedSN.previous;
      for k := 0 to |nbs|
        invariant snPQ == old(snPQ) + Children(world, removedSN, nbs[..k])
      {
        var nb := nbs[k];
        assert nbs[..k + 1][..k] == nbs[..k];
        if nbGrandParent.Some? && world.equals(nb, nbGrandParent.value.ws) {
          continue;
        }
        snPQ := snPQ + [MakeNode(world, nb, Some(removedSN))];
      }
      assert nbs[..|nbs|] == nbs;
    }

    /** Prepends the states of sn's chain, from sn back to the first node. */
    method FindPath(sn: SearchNode<W>)
      modifies this`wsSolution
      ensures wsSolution == Path(sn) + old(wsSolution)
    {
      var cur := Some(sn);
      while cur.Some?
        invariant (if cur.Some? then Path(cur.value) else []) + wsSolution == Path(sn) + old(wsSolution)
        decreases cur
      {
        wsSolution := [cur.value.ws] + wsSolution;
        cur := cur.value.previous;
      }
    }

    /** Records the goal node's move count and path. */
    method Finish(min: SearchNode<W>)
      requires failure.None? && wsSolution == [] && AllChained(world, initial, popped)
      requires |popped| > 0 && popped[|popped| - 1] == min && world.isGoal(min.ws)
      requires forall k :: 0 <= k < |popped| - 1 ==> !world.isGoal(popped[k].ws)
      modifies this`moves, this`wsSolution
      ensures Valid()
    {
      moves := min.moves;
      FindPath(min);
      PathOfChain(world, initial, min);
    }

    /** One round of the search loop: takes a node of least priority and
        either ends the search at it or expands it. */
    method Step() returns (done: bool)
      requires Searching()
      modifies this`snPQ, this`moves, this`wsSolution, this`failure, this`popped
      ensures done ==> Valid()
      ensures !done ==> Searching()
      ensures old(snPQ) == [] ==> popped == old(popped)
      ensures old(snPQ) != [] ==> |popped| == |old(popped)| + 1 && popped[..|old(popped)|] == old(popped)
      ensures old(popped) == [] && |old(snPQ)| == 1 ==> popped == old(snPQ)
      ensures old(snPQ) == [] ==> done && failure == Some(NoSuchElement)
      ensures old(snPQ) != [] ==>
                var t := popped[|popped| - 1];
                t in old(snPQ) && (forall k :: 0 <= k < |old(snPQ)| ==> Priority(t) <= Priority(old(snPQ)[k]))
      ensures old(snPQ) != [] ==> (done <==> world.isGoal(popped[|popped| - 1].ws))
      ensures old(snPQ) != [] && done ==>
                multiset(snPQ) + multiset{popped[|popped| - 1]} == multiset(old(snPQ))
      ensures !done ==>
                var t := popped[|popped| - 1];
                multiset(snPQ) + multiset{t} == multiset(old(snPQ)) + multiset(Children(world, t, world.neighbors(t.ws)))
    {
      var m := DelMin();
      if m.Err? {
        failure := Some(NoSuchElement);
        return true;
      }
      var min := m.value;
      popped := popped + [min];
      if world.isGoal(min.ws) {
        Finish(min);
        return true;
      }
      Expand(min);
      return false;
    }

    /** The expansion of a node that is not a goal: its children join the
        queue, and every node queued still chains back to the initial state. */
    method Expand(min: SearchNode<W>)
      requires Chain(world, initial, min) && AllChained(world, initial, snPQ)
      modifies this`snPQ
      ensures AllChained(world, initial, snPQ)
      ensures multiset(snPQ) == multiset(old(snPQ)) + multiset(Children(world, min, world.neighbors(min.ws)))
    {
      ChildrenChain(world, initial, min);
      GetNeighbors(min);
      assert forall k :: |old(snPQ)| <= k < |snPQ| ==> snPQ[k] in Children(world, min, world.neighbors(min.ws));
    }

    /** Takes nodes of least priority until one holds a goal, expanding every
        other one. */
    method SolverHelper(fuel: nat)
      requires Searching() && popped == []
      modifies this`snPQ, this`moves, this`wsSolution, this`failure, this`popped
      ensures Valid()
      ensures fuel > 0 && |old(snPQ)| == 1 ==> |popped| > 0 && popped[0] == old(snPQ)[0]
    {
      var f := fuel;
      while f > 0
        invariant f <= fuel
        invariant Searching()
        invariant f == fuel ==> snPQ == old(snPQ) && popped == []
        invariant f < fuel && |old(snPQ)| == 1 ==> |popped| > 0 && popped[0] == old(snPQ)[0]
        decreases f
      {
        var done := Step();
        if done {
          return;
        }
        f := f - 1;
      }
      failure := Some(OutOfFuel);
    }

    function Moves(): (r: int)
      requires Valid()
      reads this
      ensures failure.None? ==> r >= 0 && r == |wsSolution| - 1
    {
      moves
    }

    function Solution(): (r: seq<W>)
      requires Valid()
      reads this
      ensures failure.None? ==> IsWalk(world, initial, r, moves) && world.isGoal(r[|r| - 1])
    {
      wsSolution
    }
  }
}
