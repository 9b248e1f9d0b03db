/** Route search over the routable graph: a best-first search that records the
    search tree in the nodes' `preNode` fields, the backward walk that turns
    that tree into a route, the priority comparator, and navigation directions. */
module Router {
  import opened Common
  import opened MapGraph

  /* ----------------------------- comparator ----------------------------- */

  /** The A* priority of a node: the distance travelled plus the estimate. */
  function Priority(n: Node): real
    reads n`moves, n`distanceToGoal
  {
    n.moves + n.distanceToGoal
  }

  /** NDComparator.compare: the sign of the difference of the two priorities. */
  function NDCompare(o1: Node, o2: Node): (r: int)
    reads o1`moves, o1`distanceToGoal, o2`moves, o2`distanceToGoal
    ensures r == 1 <==> Priority(o1) > Priority(o2)
    ensures r == 0 <==> Priority(o1) == Priority(o2)
    ensures r == -1 <==> Priority(o1) < Priority(o2)
  {
    var result := (o1.moves + o1.distanceToGoal) - (o2.moves + o2.distanceToGoal);
    if result > 0.0 then 1 else if result == 0.0 then 0 else -1
  }

  lemma NDCompareAntisymmetric(o1: Node, o2: Node)
    ensures NDCompare(o1, o2) == -NDCompare(o2, o1)
  {
  }

  lemma NDCompareTransitive(o1: Node, o2: Node, o3: Node)
    requires NDCompare(o1, o2) <= 0 && NDCompare(o2, o3) <= 0
    ensures NDCompare(o1, o3) <= 0
  {
  }

  /* --------------------------- the search tree --------------------------- */

  /** `n` is the routable node stored under its own id. */
  ghost predicate Registered(g: GraphDB, n: Node)
    reads g`validNodes
  {
    n.id in g.validNodes && g.validNodes[n.id] == n
  }

  /** `n`'s parent is a routable node closed with a rank below `bound` that
      lists `n` among its neighbours. */
  ghost predicate ParentEdge(g: GraphDB, rank: map<int, nat>, n: Node, bound: int)
    reads g`validNodes, n`preNode, g.validNodes.Values`adjacent
  {
    var p := n.preNode;
    p != null && p.id in rank && Registered(g, p) && rank[p.id] < bound && n.id in p.adjacent
  }

  /** The closed nodes of one query, `rank` giving the order they were closed
      in: the start node has no parent, every other closed node's parent was
      closed strictly earlier and lists it as a neighbour. */
  ghost predicate Tree(g: GraphDB, st: Node, rank: map<int, nat>)
    reads g`validNodes, g.validNodes.Values`preNode, g.validNodes.Values`adjacent
  {
    Registered(g, st) && st.preNode == null && st.id in rank &&
    forall k :: k in rank ==>
      (k in g.validNodes && (k != st.id ==> ParentEdge(g, rank, g.validNodes[k], rank[k])))
  }

  /** Every queued node is routable, and every queued node that is still open
      hangs below a closed node. */
  ghost predicate Queued(g: GraphDB, rank: map<int, nat>, frontier: seq<Node>, bound: int)
    reads g`validNodes, g.validNodes.Values`preNode, g.validNodes.Values`adjacent
  {
    forall i :: 0 <= i < |frontier| ==>
      (Registered(g, frontier[i]) && (frontier[i].id !in rank ==> ParentEdge(g, rank, frontier[i], bound)))
  }

  /** The number of queued entries whose node is already closed. */
  function StaleCount(frontier: seq<Node>, removed: set<int>): nat {
    if frontier == [] then 0
    else StaleCount(frontier[..|frontier| - 1], removed) +
         (if frontier[|frontier| - 1].id in removed then 1 else 0)
  }

  lemma {:induction false} StaleCountAppend(a: seq<Node>, b: seq<Node>, removed: set<int>)
    ensures StaleCount(a + b, removed) == StaleCount(a, removed) + StaleCount(b, removed)
  {
    if b != [] {
      var b' := b[..|b| - 1];
      assert (a + b)[..|a + b| - 1] == a + b';
      StaleCountAppend(a, b', removed);
    } else {
      assert a + b == a;
    }
  }

  /** Removing one entry lowers the stale count by one exactly when that entry is stale. */
  lemma StaleCountRemove(f: seq<Node>, k: nat, removed: set<int>)
    requires k < |f|
    ensures StaleCount(f[..k] + f[k + 1..], removed) + (if f[k].id in removed then 1 else 0) ==
            StaleCount(f, removed)
  {
    assert f == f[..k] + ([f[k]] + f[k + 1..]);
    StaleCountAppend(f[..k], [f[k]] + f[k + 1..], removed);
    StaleCountAppend([f[k]], f[k + 1..], removed);
    StaleCountAppend(f[..k], f[k + 1..], removed);
    assert StaleCount([f[k]], removed) == (if f[k].id in removed then 1 else 0) by {
      assert [f[k]][..0] == [];
    }
  }

  lemma CardRemove(K: set<int>, R: set<int>, x: int)
    requires x in K && x !in R
    ensures |K - (R + {x})| < |K - R|
  {
    var A := K - R;
    var B := K - (R + {x});
    forall y ensures y in B <==> y in A - {x} {
    }
    assert B == A - {x};
    assert x in A;
  }

  /** The ids of the queued entries. */
  function Ids(frontier: seq<Node>): (r: set<int>)
    ensures forall i :: 0 <= i < |frontier| ==> frontier[i].id in r
  {
    if frontier == [] then {} else Ids(frontier[..|frontier| - 1]) + {frontier[|frontier| - 1].id}
  }

  lemma {:induction false} IdsAppend(a: seq<Node>, b: seq<Node>)
    ensures forall x :: x in Ids(a + b) <==> x in Ids(a) || x in Ids(b)
  {
    if b != [] {
      var b' := b[..|b| - 1];
      assert (a + b)[..|a + b| - 1] == a + b';
      IdsAppend(a, b');
    } else {
      assert a + b == a;
    }
  }

  /** Taking one entry out of the queue loses at most that entry's id. */
  lemma IdsRemove(f: seq<Node>, k: nat)
    requires k < |f|
    ensures forall x :: x in Ids(f) ==> x in Ids(f[..k] + f[k + 1..]) || x == f[k].id
  {
    assert f == f[..k] + ([f[k]] + f[k + 1..]);
    IdsAppend(f[..k], [f[k]] + f[k + 1..]);
    IdsAppend([f[k]], f[k + 1..]);
    IdsAppend(f[..k], f[k + 1..]);
    assert Ids([f[k]]) == {f[k].id} by {
      assert [f[k]][..0] == [];
    }
  }

  /** Every neighbour of a closed node outside `except` is closed or queued. */
  ghost predicate Covered(g: GraphDB, rank: map<int, nat>, frontier: seq<Node>, except: set<int>)
    reads g`validNodes, g.validNodes.Values`adjacent
  {
    forall k, j :: k in rank && k !in except && k in g.validNodes && j in g.validNodes[k].adjacent ==>
      j in rank || j in Ids(frontier)
  }

  /** Some routable node lists a neighbour id that is not routable. */
  ghost predicate Dangling(g: GraphDB)
    reads g`validNodes, g.validNodes.Values`adjacent
  {
    exists k, j :: k in g.validNodes && j in g.validNodes[k].adjacent && j !in g.validNodes
  }

  /** In the routable graph of a loaded map no neighbour id dangles. */
  lemma RoutingNotDangling(g: GraphDB)
    requires g.Routing()
    ensures !Dangling(g)
  {
    forall k, j | k in g.validNodes && j in g.validNodes[k].adjacent
      ensures j in g.validNodes
    {
      assert j in g.Adjacency()[k];
      assert UndirectedEdge(g.Adjacency(), g.validNodes.Keys, k, j);
    }
  }

  /** `closed` holds `s`, not `d`, and every routable neighbour of its members. */
  ghost predicate Separates(g: GraphDB, closed: set<int>, s: int, d: int)
    reads g`validNodes, g.validNodes.Values`adjacent
  {
    s in closed && d !in closed &&
    forall k, j :: k in closed && k in g.validNodes && j in g.validNodes[k].adjacent ==> j in closed
  }

  /** A sequence of routable ids, each listed as a neighbour of the one before. */
  ghost predicate IsWalk(g: GraphDB, route: seq<int>)
    reads g`validNodes, g.validNodes.Values`adjacent
  {
    (forall i :: 0 <= i < |route| ==> route[i] in g.validNodes) &&
    forall i :: 0 <= i < |route| - 1 ==>
      route[i] in g.validNodes && route[i + 1] in g.validNodes[route[i]].adjacent
  }

  lemma {:induction false} WalkStaysInside(g: GraphDB, closed: set<int>, s: int, d: int, route: seq<int>, i: nat)
    requires Separates(g, closed, s, d) && IsWalk(g, route)
    requires route != [] && route[0] == s && i < |route|
    ensures route[i] in closed
  {
    if i > 0 {
      WalkStaysInside(g, closed, s, d, route, i - 1);
      var k, j := route[i - 1], route[i];
      assert k in closed && k in g.validNodes && j in g.validNodes[k].adjacent;
    }
  }

  /** A separating set rules out every walk from `s` to `d`. */
  lemma SeparatedUnreachable(g: GraphDB, closed: set<int>, s: int, d: int, route: seq<int>)
    requires Separates(g, closed, s, d) && IsWalk(g, route)
    requires route != [] && route[0] == s
    ensures route[|route| - 1] != d
  {
    WalkStaysInside(g, closed, s, d, route, |route| - 1);
  }

  /** `adjOrder(k)` lists the neighbour set of node `k` (its iteration order). */
  ghost predicate AdjacencyOrders(g: GraphDB, adjOrder: int -> seq<int>)
    reads g`validNodes, g.validNodes.Values`adjacent
  {
    forall k :: k in g.validNodes ==> Elements(adjOrder(k)) == g.validNodes[k].adjacent
  }

  /* ------------------------------- search -------------------------------- */

  /** One step of the inner loop of spHelper: the open neighbour `nd` of the
      closed node `min` gets `min` as its parent, the distance travelled to it
      through `min` and its estimate to the destination. */
  method Relax(g: GraphDB, min: Node, nd: Node, destNd: Node, dist: Distance, frontier: seq<Node>,
               ghost st: Node, ghost rank: map<int, nat>, ghost count: nat)
    requires g.Valid()
    requires Registered(g, min) && min.id in rank && rank[min.id] < count
    requires Registered(g, nd) && nd.id !in rank && nd.id in min.adjacent
    requires Tree(g, st, rank) && Queued(g, rank, frontier, count)
    modifies nd`preNode, nd`moves, nd`distanceToGoal
    ensures nd.preNode == min
    ensures nd.moves == old(min.moves) + dist(min.lon, min.lat, nd.lon, nd.lat)
    ensures nd.distanceToGoal == dist(nd.lon, nd.lat, destNd.lon, destNd.lat)
    ensures Tree(g, st, rank) && Queued(g, rank, frontier + [nd], count)
  {
    var moves := min.moves + dist(min.lon, min.lat, nd.lon, nd.lat);
    nd.preNode := min;
    nd.moves := moves;
    nd.distanceToGoal := dist(nd.lon, nd.lat, destNd.lon, destNd.lat);
  }

  /** What relaxing `nd` from `min` writes: `min` as its parent, the distance
      travelled to it through `min` (which had travelled `minMoves`) and its
      estimate to `destNd`. */
  ghost predicate RelaxedFrom(nd: Node, min: Node, minMoves: real, destNd: Node, dist: Distance)
    reads nd
  {
    nd.preNode == min && nd.moves == minMoves + dist(min.lon, min.lat, nd.lon, nd.lat) &&
    nd.distanceToGoal == dist(nd.lon, nd.lat, destNd.lon, destNd.lat)
  }

  /** The routable nodes stored under the ids in `ids`. */
  function Neighbours(g: GraphDB, ids: set<int>): (r: set<Node>)
    reads g
    ensures forall k :: k in ids && k in g.validNodes ==> g.validNodes[k] in r
    ensures r <= g.validNodes.Values
  {
    set k | k in ids && k in g.validNodes :: g.validNodes[k]
  }

  /** The entries the inner loop of spHelper queues for the neighbour list
      `ns`: the routable nodes whose ids are not closed, in list order. */
  function Opened(g: GraphDB, ns: seq<int>, removed: set<int>): (r: seq<Node>)
    reads g
    ensures |r| <= |ns|
    ensures forall i :: 0 <= i < |r| ==> r[i] in g.validNodes.Values
  {
    if ns == [] then []
    else
      var id := ns[|ns| - 1];
      Opened(g, ns[..|ns| - 1], removed) +
      (if id !in removed && id in g.validNodes then [g.validNodes[id]] else [])
  }

  /** Extending the neighbour list by one id extends the opened entries by
      that id's node, when it is routable and not closed. */
  lemma OpenedSnoc(g: GraphDB, ns: seq<int>, i: nat, removed: set<int>)
    requires i < |ns|
    ensures Opened(g, ns[..i + 1], removed) ==
            Opened(g, ns[..i], removed) +
            (if ns[i] !in removed && ns[i] in g.validNodes then [g.validNodes[ns[i]]] else [])
  {
    assert ns[..i + 1][..i] == ns[..i];
  }

  /** Every routable, unclosed id of `ns` has its node among the opened entries. */
  lemma {:induction false} OpenedHolds(g: GraphDB, ns: seq<int>, removed: set<int>)
    ensures forall i :: 0 <= i < |ns| && ns[i] !in removed && ns[i] in g.validNodes ==>
              g.validNodes[ns[i]] in Opened(g, ns, removed)
  {
    if ns != [] {
      OpenedHolds(g, ns[..|ns| - 1], removed);
      forall i | 0 <= i < |ns| - 1 && ns[i] !in removed && ns[i] in g.validNodes
        ensures g.validNodes[ns[i]] in Opened(g, ns, removed)
      {
        assert ns[..|ns| - 1][i] == ns[i];
      }
    }
  }

  /** One pass of the inner loop of spHelper, for neighbour id `id` of `min`:
      a closed id is skipped; a routable one is relaxed and queued; a missing
      one is the null dereference the loop would hit. */
  method Visit(g: GraphDB, min: Node, destNd: Node, dist: Distance, ns: seq<int>, i: nat,
               removed: set<int>, frontier: seq<Node>, base: seq<Node>,
               ghost st: Node, ghost rank: map<int, nat>, ghost count: nat, ghost minMoves: real)
    returns (ok: bool, frontier': seq<Node>)
    requires g.Valid()
    requires Registered(g, min) && min.id in rank && rank[min.id] < count
    requires i < |ns| && ns[i] in min.adjacent
    requires frontier == base + Opened(g, ns[..i], removed)
    requires forall k :: k in rank <==> k in removed
    requires Tree(g, st, rank) && Queued(g, rank, frontier, count)
    requires Covered(g, rank, frontier, {min.id})
    requires min.moves == minMoves
    requires forall k :: |base| <= k < |frontier| ==> RelaxedFrom(frontier[k], min, minMoves, destNd, dist)
    requires forall j :: 0 <= j < i ==> ns[j] in removed || (ns[j] in g.validNodes && ns[j] in Ids(frontier))
    modifies Neighbours(g, min.adjacent - removed)`preNode, Neighbours(g, min.adjacent - removed)`moves,
             Neighbours(g, min.adjacent - removed)`distanceToGoal
    ensures Tree(g, st, rank) && min.moves == minMoves
    ensures ok <==> ns[i] in removed || ns[i] in g.validNodes
    ensures !ok ==> Dangling(g)
    ensures ok ==> frontier' == base + Opened(g, ns[..i + 1], removed)
    ensures ok ==> Queued(g, rank, frontier', count) && Covered(g, rank, frontier', {min.id})
    ensures ok ==> StaleCount(frontier', removed) == StaleCount(frontier, removed)
    ensures ok ==> forall j :: 0 <= j < i + 1 ==> ns[j] in removed || (ns[j] in g.validNodes && ns[j] in Ids(frontier'))
    ensures ok ==> forall k :: |base| <= k < |frontier'| ==> RelaxedFrom(frontier'[k], min, minMoves, destNd, dist)
  {
    var id := ns[i];
    OpenedSnoc(g, ns, i, removed);
    frontier' := frontier;
    if id in removed {
      return true, frontier';
    }
    if id !in g.validNodes {
      assert g.validNodes[min.id].adjacent == min.adjacent;
      return false, frontier';
    }
    var nd := g.validNodes[id];
    Relax(g, min, nd, destNd, dist, frontier, st, rank, count);
    IdsAppend(frontier, [nd]);
    StaleCountAppend(frontier, [nd], removed);
    assert StaleCount([nd], removed) == 0 by {
      assert [nd][..0] == [];
    }
    ok, frontier' := true, frontier + [nd];
  }

  /** The inner loop of spHelper: every neighbour of `min` that is not closed
      gets `min` as its parent, fresh moves and estimate, and is queued again. */
  method Expand(g: GraphDB, min: Node, destNd: Node, dist: Distance, ns: seq<int>,
                removed: set<int>, frontier: seq<Node>,
                ghost st: Node, ghost rank: map<int, nat>, ghost count: nat)
    returns (ok: bool, frontier': seq<Node>)
    requires g.Valid()
    requires Registered(g, min) && min.id in rank && rank[min.id] < count
    requires Elements(ns) == min.adjacent
    requires forall k :: k in rank <==> k in removed
    requires Tree(g, st, rank) && Queued(g, rank, frontier, count)
    requires Covered(g, rank, frontier, {min.id})
    modifies Neighbours(g, min.adjacent - removed)`preNode, Neighbours(g, min.adjacent - removed)`moves,
             Neighbours(g, min.adjacent - removed)`distanceToGoal
    ensures Tree(g, st, rank)
    ensures ok ==> Queued(g, rank, frontier', count) && Covered(g, rank, frontier', {})
    ensures ok ==> StaleCount(frontier', removed) == StaleCount(frontier, removed)
    ensures !ok ==> Dangling(g)
    ensures ok ==> frontier' == frontier + Opened(g, ns, removed)
    ensures ok ==> forall i :: 0 <= i < |ns| && ns[i] !in removed ==> ns[i] in g.validNodes
    ensures ok ==> forall k :: |frontier| <= k < |frontier'| ==> RelaxedFrom(frontier'[k], min, old(min.moves), destNd, dist)
  {
    frontier' := frontier;
    for i := 0 to |ns|
      invariant Tree(g, st, rank) && Queued(g, rank, frontier', count)
      invariant Covered(g, rank, frontier', {min.id})
      invariant forall j :: 0 <= j < i ==> ns[j] in removed || (ns[j] in g.validNodes && ns[j] in Ids(frontier'))
      invariant StaleCount(frontier', removed) == StaleCount(frontier, removed)
      invariant frontier' == frontier + Opened(g, ns[..i], removed)
      invariant min.moves == old(min.moves)
      invariant forall k :: |frontier| <= k < |frontier'| ==> RelaxedFrom(frontier'[k], min, old(min.moves), destNd, dist)
    {
      var visited, next := Visit(g, min, destNd, dist, ns, i, removed, frontier', frontier, st, rank, count, old(min.moves));
      if !visited {
        return false, frontier';
      }
      frontier' := next;
    }
    assert ns[..|ns|] == ns;
    forall k, j | k in rank && k in g.validNodes && j in g.validNodes[k].adjacent
      ensures j in rank || j in Ids(frontier')
    {
      if k == min.id {
        var x :| 0 <= x < |ns| && ns[x] == j;
      }
    }
    return true, frontier';
  }

  /** The bookkeeping of spHelper's loop: `removed` holds exactly the popped
      ids, which `rank` numbers below `count` in the order they were closed;
      the start id is popped first and the destination is not yet closed. */
  ghost predicate Closed(rank: map<int, nat>, removed: set<int>, paths: seq<int>, count: nat, st: int, dest: int) {
    (forall k :: k in rank <==> k in removed) &&
    (forall k :: k in removed <==> k in paths) &&
    (forall k :: k in rank ==> rank[k] < count) &&
    dest !in rank &&
    (rank == map[] <==> paths == []) &&
    (paths != [] ==> paths[0] == st)
  }

  /** The state at the head of spHelper's loop. */
  ghost predicate Searching(g: GraphDB, st: Node, dest: Node, adjOrder: int -> seq<int>,
                            rank: map<int, nat>, removed: set<int>,
                            paths: seq<int>, frontier: seq<Node>, count: nat)
    reads g, g.validNodes.Values`preNode, g.validNodes.Values`adjacent
  {
    g.Valid() && Registered(g, st) && Registered(g, dest) && AdjacencyOrders(g, adjOrder) &&
    Closed(rank, removed, paths, count, st.id, dest.id) &&
    (rank == map[] ==> frontier == [st] && st.preNode == null) &&
    (rank != map[] ==> Tree(g, st, rank) && Queued(g, rank, frontier, count)) &&
    Covered(g, rank, frontier, {})
  }

  /** Popping entry `p`: a node popped for the first time is closed with the
      next rank; the tree and the queue invariants carry over, and only the
      popped node's neighbours still need covering. */
  lemma PopStep(g: GraphDB, st: Node, dest: Node, adjOrder: int -> seq<int>, rank: map<int, nat>,
                removed: set<int>, paths: seq<int>, before: seq<Node>, count: nat, p: nat,
                rank': map<int, nat>, count': nat)
    requires Searching(g, st, dest, adjOrder, rank, removed, paths, before, count)
    requires p < |before|
    requires rank' == (if before[p].id in removed then rank else rank[before[p].id := count])
    requires count' == (if before[p].id in removed then count else count + 1)
    ensures Registered(g, before[p]) && before[p].id in rank' && rank'[before[p].id] < count'
    ensures Tree(g, st, rank') && Queued(g, rank', before[..p] + before[p + 1..], count')
    ensures Covered(g, rank', before[..p] + before[p + 1..], {before[p].id})
    ensures forall k :: k in rank' <==> k in removed + {before[p].id}
    ensures forall k :: k in rank' <==> k in paths + [before[p].id]
    ensures (paths + [before[p].id])[0] == st.id
    ensures before[p] != dest ==>
              Closed(rank', removed + {before[p].id}, paths + [before[p].id], count', st.id, dest.id)
  {
    var min := before[p];
    var after := before[..p] + before[p + 1..];
    IdsRemove(before, p);
    assert forall i :: 0 <= i < |after| ==> after[i] in before;
    if rank != map[] {
      forall i | 0 <= i < |after| && after[i].id !in rank'
        ensures ParentEdge(g, rank', after[i], count')
      {
        assert ParentEdge(g, rank, after[i], count);
      }
    }
  }

  /** The outcome of a search that popped the destination: the closed ids form
      a search tree rooted at the start that includes the destination, and the
      popped ids, duplicates included, run from the start to the destination
      and are exactly the closed ids. */
  ghost predicate Found(g: GraphDB, st: Node, dest: Node, rank: map<int, nat>, paths: seq<int>)
    reads g`validNodes, g.validNodes.Values`preNode, g.validNodes.Values`adjacent
  {
    Tree(g, st, rank) && dest.id in rank &&
    paths != [] && paths[0] == st.id && paths[|paths| - 1] == dest.id &&
    forall k :: k in rank <==> k in paths
  }

  /** spHelper: best-first search from `stNd` until `destNd` is popped. The
      queue is a bag; `pick(t) % |frontier|` chooses the entry taken on the
      t-th pop (the priority order is not modelled), `adjOrder` gives the
      iteration order of each neighbour set. The returned list holds the id
      of every popped entry, in pop order; `rank` (ghost) says in which order
      the ids were closed. */
  method SpHelper(g: GraphDB, stNd: Node?, destNd: Node?, dist: Distance,
                  adjOrder: int -> seq<int>, pick: nat -> nat)
    returns (r: Result<seq<int>>, ghost rank: map<int, nat>)
    requires g.Valid()
    requires stNd != null ==> Registered(g, stNd)
    requires destNd != null ==> Registered(g, destNd)
    requires AdjacencyOrders(g, adjOrder)
    modifies g.validNodes.Values`preNode, g.validNodes.Values`moves, g.validNodes.Values`distanceToGoal
    ensures stNd == null || destNd == null ==> r == Err(NullPointer)
    ensures r == Err(NullPointer) ==> stNd == null || destNd == null || Dangling(g)
    ensures r.Err? ==> r.failure == NullPointer || r.failure == NoSuchElement
    ensures r == Err(NoSuchElement) ==>
              stNd != null && destNd != null && Separates(g, rank.Keys, stNd.id, destNd.id)
    ensures r.Ok? ==> stNd != null && destNd != null && Found(g, stNd, destNd, rank, r.value)
    ensures stNd != null && stNd == destNd ==> r == Ok([stNd.id])
  {
    rank := map[];
    if destNd == null || stNd == null {
      return Err(NullPointer), rank;
    }
    Start(g, stNd, destNd, dist);
    var frontier: seq<Node> := [stNd];
    var removed: set<int> := {};
    var paths: seq<int> := [];
    ghost var count: nat := 0;
    var t: nat := 0;
    while frontier != []
      invariant Searching(g, stNd, destNd, adjOrder, rank, removed, paths, frontier, count)
      invariant stNd == destNd ==> frontier == [stNd]
      decreases |g.validNodes.Keys - removed|, StaleCount(frontier, removed)
    {
      var p := pick(t) % |frontier|;
      t := t + 1;
      var found, ok;
      found, ok, frontier, removed, paths, rank, count :=
        Step(g, stNd, destNd, dist, adjOrder, frontier, removed, paths, p, rank, count);
      if found {
        return Ok(paths), rank;
      }
      if !ok {
        return Err(NullPointer), rank;
      }
    }
    Exhausted(g, stNd, destNd, adjOrder, rank, removed, paths, count);
    r := Err(NoSuchElement);
  }

  /** One round of spHelper's loop: pop entry `p`, record its id, stop if it
      is the destination, otherwise relax its open neighbours. */
  method Step(g: GraphDB, stNd: Node, destNd: Node, dist: Distance, adjOrder: int -> seq<int>,
              frontier: seq<Node>, removed: set<int>, paths: seq<int>, p: nat,
              ghost rank: map<int, nat>, ghost count: nat)
    returns (found: bool, ok: bool, frontier': seq<Node>, removed': set<int>, paths': seq<int>,
             ghost rank': map<int, nat>, ghost count': nat)
    requires Searching(g, stNd, destNd, adjOrder, rank, removed, paths, frontier, count)
    requires p < |frontier|
    modifies g.validNodes.Values`preNode, g.validNodes.Values`moves, g.validNodes.Values`distanceToGoal
    ensures removed' == removed + {frontier[p].id} && paths' == paths + [frontier[p].id]
    ensures found <==> frontier[p] == destNd
    ensures found ==> frontier' == frontier[..p] + frontier[p + 1..]
    ensures !found && ok ==>
              frontier' == frontier[..p] + frontier[p + 1..] + Opened(g, adjOrder(frontier[p].id), removed') &&
              forall k :: |frontier| - 1 <= k < |frontier'| ==>
                RelaxedFrom(frontier'[k], frontier[p], old(frontier[p].moves), destNd, dist)
    ensures found ==> Found(g, stNd, destNd, rank', paths') && (stNd == destNd ==> paths' == [stNd.id])
    ensures stNd == destNd ==> found
    ensures !found && !ok ==> Dangling(g)
    ensures !found && ok ==>
              Searching(g, stNd, destNd, adjOrder, rank', removed', paths', frontier', count') &&
              (|g.validNodes.Keys - removed'| < |g.validNodes.Keys - removed| ||
               (removed' == removed && StaleCount(frontier', removed') < StaleCount(frontier, removed)))
  {
    assert stNd == destNd ==> rank == map[] && frontier == [stNd];
    var min := frontier[p];
    var rest := frontier[..p] + frontier[p + 1..];
    rank' := if min.id in removed then rank else rank[min.id := count];
    count' := if min.id in removed then count else count + 1;
    PopStep(g, stNd, destNd, adjOrder, rank, removed, paths, frontier, count, p, rank', count');
    StaleCountRemove(frontier, p, removed);
    if min.id !in removed {
      CardRemove(g.validNodes.Keys, removed, min.id);
    } else {
      assert removed + {min.id} == removed;
    }
    removed' := removed + {min.id};
    paths' := paths + [min.id];
    if min == destNd {
      assert stNd == destNd ==> paths == [];
      return true, true, rest, removed', paths', rank', count';
    }
    found := false;
    ok, frontier' := Expand(g, min, destNd, dist, adjOrder(min.id), removed', rest, stNd, rank', count');
  }

  /** When the queue runs dry the closed ids separate the start from the destination. */
  lemma Exhausted(g: GraphDB, st: Node, dest: Node, adjOrder: int -> seq<int>, rank: map<int, nat>,
                  removed: set<int>, paths: seq<int>, count: nat)
    requires Searching(g, st, dest, adjOrder, rank, removed, paths, [], count)
    ensures Separates(g, rank.Keys, st.id, dest.id)
  {
    assert Ids([]) == {};
  }

  /** The start of spHelper: the start node is queued with no parent, no
      distance travelled and its estimate to the destination. */
  method Start(g: GraphDB, stNd: Node, destNd: Node, dist: Distance)
    requires Registered(g, stNd)
    modifies stNd`preNode, stNd`moves, stNd`distanceToGoal
    ensures stNd.preNode == null && stNd.moves == 0.0
    ensures stNd.distanceToGoal == dist(stNd.lon, stNd.lat, destNd.lon, destNd.lat)
  {
    stNd.moves := 0.0;
    stNd.distanceToGoal := dist(stNd.lon, stNd.lat, destNd.lon, destNd.lat);
    stNd.preNode := null;
  }

  /* ----------------------------- the route ------------------------------ */

  /** `route` follows the search tree down to `last`: a walk of closed ids with
      strictly increasing ranks, each node's parent being the node before it. */
  ghost predicate TreePath(g: GraphDB, rank: map<int, nat>, route: seq<int>, last: int)
    reads g`validNodes, g.validNodes.Values`preNode, g.validNodes.Values`adjacent
  {
    route != [] && route[|route| - 1] == last && IsWalk(g, route) &&
    (forall i :: 0 <= i < |route| ==> route[i] in rank) &&
    (forall i, j :: 0 <= i < j < |route| ==> rank[route[i]] < rank[route[j]]) &&
    forall i :: 0 < i < |route| ==> g.validNodes[route[i]].preNode == g.validNodes[route[i - 1]]
  }

  /** fixPath: follows the parent links back from the node of the last id of
      `path` and lists the ids met, root first. An empty path is an index
      error; a last id that is not routable gives the empty route. */
  method FixPath(g: GraphDB, path: seq<int>, ghost st: Node, ghost rank: map<int, nat>)
    returns (r: Result<seq<int>>)
    requires g.Valid() && Tree(g, st, rank)
    requires path != [] && path[|path| - 1] in g.validNodes ==> path[|path| - 1] in rank
    ensures path == [] <==> r == Err(IndexOutOfBounds)
    ensures path != [] && path[|path| - 1] !in g.validNodes ==> r == Ok([])
    ensures path != [] && path[|path| - 1] in g.validNodes ==>
              r.Ok? && TreePath(g, rank, r.value, path[|path| - 1]) &&
              r.value[0] == st.id && g.validNodes[r.value[0]].preNode == null
  {
    if path == [] {
      return Err(IndexOutOfBounds);
    }
    var last := path[|path| - 1];
    if last !in g.validNodes {
      return Ok([]);
    }
    var nd: Node? := g.validNodes[last];
    var newPath: seq<int> := [];
    while nd != null
      invariant nd != null ==> Registered(g, nd) && nd.id in rank
      invariant newPath == [] ==> nd == g.validNodes[last]
      invariant newPath != [] ==> TreePath(g, rank, newPath, last)
      invariant newPath != [] && nd == null ==> newPath[0] == st.id && g.validNodes[newPath[0]].preNode == null
      invariant newPath != [] && nd != null ==>
                  g.validNodes[newPath[0]].preNode == nd && newPath[0] in nd.adjacent &&
                  rank[nd.id] < rank[newPath[0]]
      decreases if nd == null then 0 else rank[nd.id] + 1
    {
      PrependParent(g, rank, newPath, last, nd);
      newPath := [nd.id] + newPath;
      nd := nd.preNode;
    }
    return Ok(newPath);
  }

  /** Putting the parent in front of a tree path keeps it a tree path. */
  lemma PrependParent(g: GraphDB, rank: map<int, nat>, route: seq<int>, last: int, nd: Node)
    requires Registered(g, nd) && nd.id in rank
    requires route == [] ==> nd.id == last
    requires route != [] ==>
               TreePath(g, rank, route, last) &&
               g.validNodes[route[0]].preNode == nd && route[0] in nd.adjacent && rank[nd.id] < rank[route[0]]
    ensures TreePath(g, rank, [nd.id] + route, last)
  {
    var route' := [nd.id] + route;
    forall i, j | 0 <= i < j < |route'| ensures rank[route'[i]] < rank[route'[j]] {
      if i > 0 {
        assert route'[i] == route[i - 1] && route'[j] == route[j - 1];
      } else if j > 1 {
        assert rank[route[0]] < rank[route[j - 1]];
      }
    }
  }

  /** A tree path that starts where it ends is that single id. */
  lemma TreePathSingleton(g: GraphDB, rank: map<int, nat>, route: seq<int>, last: int)
    requires TreePath(g, rank, route, last) && route[0] == last
    ensures route == [last]
  {
    assert rank[route[0]] == rank[route[|route| - 1]];
  }

  /** Some walk leads from `s` to `d`. */
  ghost predicate Reachable(g: GraphDB, s: int, d: int)
    reads g`validNodes, g.validNodes.Values`adjacent
  {
    exists route :: IsWalk(g, route) && route != [] && route[0] == s && route[|route| - 1] == d
  }

  /** shortestPath: the routable nodes nearest to the two locations (ghost
      `startId` and `destId`, found by scanning the ids in `order`), then the
      route between them. */
  method ShortestPath(g: GraphDB, stlon: real, stlat: real, destlon: real, destlat: real,
                      dist: Distance, order: seq<int>, adjOrder: int -> seq<int>, pick: nat -> nat)
    returns (r: Result<seq<int>>, ghost startId: int, ghost destId: int)
    requires g.Valid() && Elements(order) == g.ids
    requires AdjacencyOrders(g, adjOrder)
    modifies g.validNodes.Values`preNode, g.validNodes.Values`moves, g.validNodes.Values`distanceToGoal
    ensures IsClosest(g.validNodes, stlon, stlat, dist, order, startId)
    ensures IsClosest(g.validNodes, destlon, destlat, dist, order, destId)
    ensures RouteOutcome(g, startId, destId, r)
  {
    var stId := g.Closest(stlon, stlat, dist, order);
    var dId := g.Closest(destlon, destlat, dist, order);
    startId, destId := stId, dId;
    r := RouteBetween(g, stId, dId, dist, adjOrder, pick);
  }

  /** What a route query from `s` to `d` can return: a walk without repeated
      ids from `s` to `d` (just `[s]` when the two coincide); NoSuchElement
      only when no walk joins them; NullPointer only when an end or some
      neighbour id is not routable. Over the routable graph of a loaded map a
      route is returned exactly when one exists. */
  ghost predicate RouteOutcome(g: GraphDB, s: int, d: int, r: Result<seq<int>>)
    reads g, g.validNodes.Values`adjacent
  {
    (r.Ok? ==>
       r.value != [] && IsWalk(g, r.value) && r.value[0] == s && r.value[|r.value| - 1] == d &&
       (forall i, j :: 0 <= i < j < |r.value| ==> r.value[i] != r.value[j]) &&
       (s == d ==> r.value == [s])) &&
    (r == Err(NoSuchElement) ==> !Reachable(g, s, d)) &&
    (r == Err(NullPointer) ==> s !in g.validNodes || d !in g.validNodes || Dangling(g)) &&
    (r.Err? ==> r.failure == NullPointer || r.failure == NoSuchElement) &&
    (s in g.validNodes && d in g.validNodes && g.Routing() ==> (r.Ok? <==> Reachable(g, s, d)))
  }

  /** The part of shortestPath after the two nearest-node scans: look both
      ids up, search, and read the route off the search tree. */
  method RouteBetween(g: GraphDB, stId: int, dId: int, dist: Distance,
                      adjOrder: int -> seq<int>, pick: nat -> nat)
    returns (r: Result<seq<int>>)
    requires g.Valid() && AdjacencyOrders(g, adjOrder)
    modifies g.validNodes.Values`preNode, g.validNodes.Values`moves, g.validNodes.Values`distanceToGoal
    ensures RouteOutcome(g, stId, dId, r)
  {
    var stNd: Node? := if stId in g.validNodes then g.validNodes[stId] else null;
    var destNd: Node? := if dId in g.validNodes then g.validNodes[dId] else null;
    var path;
    ghost var rank;
    path, rank := SpHelper(g, stNd, destNd, dist, adjOrder, pick);
    if path.Err? {
      if path == Err(NoSuchElement) {
        forall route | IsWalk(g, route) && route != [] && route[0] == stId
          ensures route[|route| - 1] != dId
        {
          SeparatedUnreachable(g, rank.Keys, stId, dId, route);
        }
      }
      if g.Routing() {
        RoutingNotDangling(g);
      }
      return Err(path.failure);
    }
    r := Reconstruct(g, path.value, stNd, destNd, rank);
  }

  /** The last step of shortestPath: the route fixPath reads off the search
      tree of a search that popped the destination. */
  method Reconstruct(g: GraphDB, path: seq<int>, stNd: Node, destNd: Node, ghost rank: map<int, nat>)
    returns (r: Result<seq<int>>)
    requires g.Valid() && Registered(g, destNd)
    requires Found(g, stNd, destNd, rank, path)
    ensures r.Ok? && r.value != [] && IsWalk(g, r.value)
    ensures r.value[0] == stNd.id && r.value[|r.value| - 1] == destNd.id
    ensures forall i, j :: 0 <= i < j < |r.value| ==> r.value[i] != r.value[j]
    ensures stNd == destNd ==> r.value == [stNd.id]
  {
    r := FixPath(g, path, stNd, rank);
    var route := r.value;
    if stNd == destNd {
      TreePathSingleton(g, rank, route, destNd.id);
    }
    assert forall i, j :: 0 <= i < j < |route| ==> rank[route[i]] < rank[route[j]];
  }

  /* ------------------------- navigation directions ------------------------- */

  const START := 0
  const STRAIGHT := 1
  const SLIGHT_LEFT := 2
  const SLIGHT_RIGHT := 3
  const RIGHT := 4
  const LEFT := 5
  const SHARP_LEFT := 6
  const SHARP_RIGHT := 7
  const NUM_DIRECTIONS := 8

  /** The label of each direction constant, indexed by the constant. */
  const DIRECTIONS: seq<string> :=
    ["Start", "Go straight", "Slight left", "Slight right", "Turn right", "Turn left", "Sharp left", "Sharp right"]

  const UNKNOWN_ROAD := "unknown road"

  /** A direction to go, the way to go along and the distance along it. */
  datatype NavigationDirection = NavigationDirection(direction: int, way: string, distance: real)

  /** The eight constants are distinct, each below NUM_DIRECTIONS, and the
      label table has one distinct label per constant. */
  lemma DirectionTable()
    ensures |DIRECTIONS| == NUM_DIRECTIONS
    ensures forall d :: d in [START, STRAIGHT, SLIGHT_LEFT, SLIGHT_RIGHT, RIGHT, LEFT, SHARP_LEFT, SHARP_RIGHT] ==>
              0 <= d < NUM_DIRECTIONS
    ensures forall i, j :: 0 <= i < j < NUM_DIRECTIONS ==> DIRECTIONS[i] != DIRECTIONS[j]
    ensures var codes := [START, STRAIGHT, SLIGHT_LEFT, SLIGHT_RIGHT, RIGHT, LEFT, SHARP_LEFT, SHARP_RIGHT];
      forall i, j :: 0 <= i < j < |codes| ==> codes[i] != codes[j]
  {
  }

  /** The anonymous direction: straight on an unknown road for no distance. */
  function DefaultDirection(): (d: NavigationDirection)
    ensures 0 <= d.direction < NUM_DIRECTIONS && DIRECTIONS[d.direction] == "Go straight"
    ensures d.way == UNKNOWN_ROAD && d.distance == 0.0
  {
    NavigationDirection(STRAIGHT, UNKNOWN_ROAD, 0.0)
  }

  /** The label match of fromString: the constant whose label is `text`, if any. */
  function DirectionOf(text: string): (r: Option<int>)
    ensures r.Some? ==> 0 <= r.value < NUM_DIRECTIONS && DIRECTIONS[r.value] == text
    ensures r.None? ==> forall k :: 0 <= k < NUM_DIRECTIONS ==> DIRECTIONS[k] != text
  {
    if text == "Start" then Some(START)
    else if text == "Go straight" then Some(STRAIGHT)
    else if text == "Slight left" then Some(SLIGHT_LEFT)
    else if text == "Slight right" then Some(SLIGHT_RIGHT)
    else if text == "Turn right" then Some(RIGHT)
    else if text == "Turn left" then Some(LEFT)
    else if text == "Sharp left" then Some(SHARP_LEFT)
    else if text == "Sharp right" then Some(SHARP_RIGHT)
    else None
  }

  /** The label match inverts the label table. */
  lemma DirectionOfLabel(k: int)
    requires 0 <= k < NUM_DIRECTIONS
    ensures DirectionOf(DIRECTIONS[k]) == Some(k)
  {
    DirectionTable();
  }

  /** fromString after the pattern match: `groups` is None when the text does
      not match, otherwise the three captured groups; `parse` stands for
      Double.parseDouble, None for a NumberFormatException. An unknown label
      or an unparsable distance gives null (None). */
  function FromString(groups: Option<(string, string, string)>, parse: string -> Option<real>): (r: Option<NavigationDirection>)
    ensures r.Some? <==> groups.Some? && DirectionOf(groups.value.0).Some? && parse(groups.value.2).Some?
    ensures r.Some? ==>
              0 <= r.value.direction < NUM_DIRECTIONS && DIRECTIONS[r.value.direction] == groups.value.0 &&
              r.value.way == groups.value.1 && Some(r.value.distance) == parse(groups.value.2)
  {
    if groups.None? then None
    else
      var (text, way, number) := groups.value;
      match DirectionOf(text)
      case None => None
      case Some(direction) =>
        match parse(number)
        case None => None
        case Some(distance) => Some(NavigationDirection(direction, way, distance))
  }

  /** NavigationDirection.equals on two directions: field by field. */
  predicate Equals(a: NavigationDirection, b: NavigationDirection) {
    a.direction == b.direction && a.way == b.way && a.distance == b.distance
  }

  /** Field-by-field equality is value equality. */
  lemma EqualsIsEquality(a: NavigationDirection, b: NavigationDirection)
    ensures Equals(a, b) <==> a == b
  {
  }
}
