/** The map graph store: raw nodes, the routable subset built from ways,
    the named nodes, and the queries over them. */
module MapGraph {
  import opened Common

  /** Great-circle distance between (lonV, latV) and (lonW, latW); the haversine
      formula itself is not modelled, so callers pass it in. */
  type Distance = (real, real, real, real) -> real

  /** Java's Double.MAX_VALUE, the initial best distance of `closest`. */
  const MaxDouble: real := 1.7976931348623157e308

  /** An OSM node. Its coordinates and tags never change once parsed; edges and
      way names are added while ways are processed. The last three fields are
      not declared by GraphDB.java's `Node`: they hold the per-query search
      state that Router.java writes into every node it reaches. */
  class Node {
    const id: int
    const lon: real
    const lat: real
    const info: map<string, string>
    var adjacent: set<int>
    var way: set<string>
    var preNode: Node?
    var moves: real
    var distanceToGoal: real

    constructor (id: int, lon: real, lat: real, info: map<string, string>)
      ensures this.id == id && this.lon == lon && this.lat == lat && this.info == info
      ensures adjacent == {} && way == {} && preNode == null
    {
      this.id, this.lon, this.lat, this.info := id, lon, lat, info;
      adjacent, way, preNode := {}, {}, null;
      moves, distanceToGoal := 0.0, 0.0;
    }

    /** Links this node and `nd` in both directions; a missing node or the node
        itself is ignored, so no self-loop is ever created. */
    method AddAdjacent(nd: Node?)
      modifies this`adjacent, (if nd == null then {} else {nd})`adjacent
      ensures nd == null || nd == this ==> adjacent == old(adjacent)
      ensures nd != null && nd != this ==>
                adjacent == old(adjacent) + {nd.id} && nd.adjacent == old(nd.adjacent) + {id}
    {
      if nd == null || nd == this {
        return;
      }
      adjacent := adjacent + {nd.id};
      nd.adjacent := nd.adjacent + {id};
    }
  }

  /** An OSM way: its node ids in order and its tags. */
  datatype Way = Way(id: int, valid: bool, info: map<string, string>, nodesIdOfWay: seq<int>)

  /** One record of `getLocations`: the "lat", "lon", "name" and "id" entries. */
  datatype Location = Location(lat: real, lon: real, name: Option<string>, id: int)

  function Lookup(m: map<string, string>, key: string): (r: Option<string>)
    ensures r.Some? <==> key in m
    ensures r.Some? ==> r.value == m[key]
  {
    if key in m then Some(m[key]) else None
  }

  function Elements(s: seq<int>): (r: set<int>)
    ensures forall x :: x in r <==> x in s
  {
    set i | 0 <= i < |s| :: s[i]
  }

  /** A way contributes edges only if it has at least two node ids. */
  predicate Routable(way: Way) {
    |way.nodesIdOfWay| >= 2
  }

  /* ---------- the adjacency a way contributes, as a pure function ---------- */

  /** `m` with the entries of `src` at the ids of `ns` written over it, in order. */
  function Override<V>(m: map<int, V>, src: map<int, V>, ns: seq<int>): (r: map<int, V>)
    requires forall i :: 0 <= i < |ns| ==> ns[i] in src
  {
    if ns == [] then m
    else Override(m, src, ns[..|ns| - 1])[ns[|ns| - 1] := src[ns[|ns| - 1]]]
  }

  lemma {:induction false} OverrideSpec<V>(m: map<int, V>, src: map<int, V>, ns: seq<int>)
    requires forall i :: 0 <= i < |ns| ==> ns[i] in src
    ensures forall k :: k in Override(m, src, ns) <==> k in m || k in ns
    ensures forall k :: k in Override(m, src, ns) ==>
              Override(m, src, ns)[k] == if k in ns then src[k] else m[k]
  {
    if ns != [] {
      var init := ns[..|ns| - 1];
      OverrideSpec(m, src, init);
      assert ns == init + [ns[|ns| - 1]];
      assert forall k :: k in ns <==> k in init || k == ns[|ns| - 1];
    }
  }

  /** What one consecutive pair (a, b) adds to the adjacency of k. */
  function PairLinks(a: int, b: int, k: int): set<int> {
    (if a == k && b != k then {b} else {}) + (if b == k && a != k then {a} else {})
  }

  /** The ids that a node id `k` becomes linked to by the consecutive pairs of
      `ns`; a pair whose two ids coincide links nothing. */
  function Linked(ns: seq<int>, k: int): set<int> {
    if |ns| < 2 then {}
    else Linked(ns[..|ns| - 1], k) + PairLinks(ns[|ns| - 2], ns[|ns| - 1], k)
  }

  lemma PrefixSnoc(ns: seq<int>, j: nat)
    requires j < |ns|
    ensures ns[..j + 1] == ns[..j] + [ns[j]]
    ensures forall x :: x in ns[..j + 1] <==> x in ns[..j] || x == ns[j]
  {
  }

  lemma LinkedSnoc(ns: seq<int>, j: nat, k: int)
    requires 0 < j < |ns|
    ensures Linked(ns[..j + 1], k) == Linked(ns[..j], k) + PairLinks(ns[j - 1], ns[j], k)
  {
    assert ns[..j + 1][..j] == ns[..j];
  }

  /** Way edges are symmetric, never self-loops, and only join ids of the way. */
  lemma {:induction false} LinkedIsUndirected(ns: seq<int>, a: int, b: int)
    ensures b in Linked(ns, a) ==> a != b && a in Linked(ns, b) && a in ns && b in ns
  {
    if |ns| >= 2 && b in Linked(ns, a) {
      var init := ns[..|ns| - 1];
      if b in Linked(init, a) {
        LinkedIsUndirected(init, a, b);
        assert forall x :: x in init ==> x in ns;
      } else {
        assert b in PairLinks(ns[|ns| - 2], ns[|ns| - 1], a);
      }
    }
  }

  /** Consecutive ids of a way are linked to each other (unless equal). */
  lemma {:induction false} LinkedConsecutive(ns: seq<int>, i: nat)
    requires i + 1 < |ns| && ns[i] != ns[i + 1]
    ensures ns[i + 1] in Linked(ns, ns[i]) && ns[i] in Linked(ns, ns[i + 1])
  {
    if i + 2 < |ns| {
      var init := ns[..|ns| - 1];
      LinkedConsecutive(init, i);
    }
  }

  function WithWay(adj: map<int, set<int>>, ns: seq<int>): (r: map<int, set<int>>)
    ensures forall k :: k in r <==> k in adj
  {
    map k | k in adj :: adj[k] + Linked(ns, k)
  }

  /** The adjacency after linking one pair (a, b) in both directions. */
  function LinkPair(adj: map<int, set<int>>, a: int, b: int): (r: map<int, set<int>>)
    ensures forall k :: k in r <==> k in adj
  {
    map k | k in adj :: adj[k] + PairLinks(a, b, k)
  }

  lemma WithWayShort(adj: map<int, set<int>>, ns: seq<int>)
    requires |ns| < 2
    ensures WithWay(adj, ns) == adj
  {
    forall k | k in adj ensures WithWay(adj, ns)[k] == adj[k] {
      assert Linked(ns, k) == {};
    }
  }

  /** Extending the processed prefix of a way by one id links that id to its predecessor. */
  lemma WithWaySnoc(adj: map<int, set<int>>, ns: seq<int>, j: nat)
    requires 0 < j < |ns|
    ensures WithWay(adj, ns[..j + 1]) == LinkPair(WithWay(adj, ns[..j]), ns[j - 1], ns[j])
  {
    forall k | k in adj
      ensures WithWay(adj, ns[..j + 1])[k] == LinkPair(WithWay(adj, ns[..j]), ns[j - 1], ns[j])[k]
    {
      LinkedSnoc(ns, j, k);
    }
  }

  /** The way names after tagging the single id `x` with `name`. */
  function TagOne(tags: map<int, set<string>>, x: int, name: Option<string>): (r: map<int, set<string>>)
    ensures forall k :: k in r <==> k in tags
  {
    map k | k in tags :: tags[k] + (if name.Some? && k == x then {name.value} else {})
  }

  /** The way names of `tags` after every id of `ns` is tagged with `name`. */
  function TaggedBy(tags: map<int, set<string>>, ns: seq<int>, name: Option<string>): (r: map<int, set<string>>)
    ensures forall k :: k in r <==> k in tags
  {
    map k | k in tags :: tags[k] + (if name.Some? && k in ns then {name.value} else {})
  }

  lemma TaggedByEmpty(tags: map<int, set<string>>, name: Option<string>)
    ensures TaggedBy(tags, [], name) == tags
  {
    forall k | k in tags ensures TaggedBy(tags, [], name)[k] == tags[k] { }
  }

  lemma TaggedBySnoc(tags: map<int, set<string>>, ns: seq<int>, j: nat, name: Option<string>)
    requires j < |ns|
    ensures TaggedBy(tags, ns[..j + 1], name) == TagOne(TaggedBy(tags, ns[..j], name), ns[j], name)
  {
    assert ns[..j + 1] == ns[..j] + [ns[j]];
    forall k | k in tags
      ensures TaggedBy(tags, ns[..j + 1], name)[k] == TagOne(TaggedBy(tags, ns[..j], name), ns[j], name)[k]
    {
      assert (k in ns[..j + 1]) == (k in ns[..j] || k == ns[j]);
    }
  }

  /** A way tags its nodes with its "name" only when it is routable. */
  function Tagged(tags: map<int, set<string>>, way: Way): (r: map<int, set<string>>)
    ensures forall k :: k in r <==> k in tags
  {
    if Routable(way) then TaggedBy(tags, way.nodesIdOfWay, Lookup(way.info, "name")) else tags
  }

  /** An adjacency relation over raw node ids whose edges join distinct ids of
      `keys` in both directions (so ids outside `keys` have no edges). */
  ghost predicate Undirected(adj: map<int, set<int>>, keys: set<int>) {
    forall a, b :: a in adj && b in adj[a] ==> UndirectedEdge(adj, keys, a, b)
  }

  /** Adding a way's edges keeps the relation undirected and loop-free, with the
      way's ids added to the routable set. */
  lemma WithWayUndirected(adj: map<int, set<int>>, keys: set<int>, ns: seq<int>)
    requires Undirected(adj, keys)
    requires Elements(ns) <= adj.Keys
    ensures Undirected(WithWay(adj, ns), keys + Elements(ns))
  {
    forall a, b | a in WithWay(adj, ns) && b in WithWay(adj, ns)[a]
      ensures UndirectedEdge(WithWay(adj, ns), keys + Elements(ns), a, b)
    {
      WithWayEdge(adj, keys, ns, a, b);
    }
  }

  ghost predicate UndirectedEdge(adj: map<int, set<int>>, keys: set<int>, a: int, b: int) {
    a in keys && b in keys && a != b && b in adj && a in adj[b]
  }

  lemma WithWayEdge(adj: map<int, set<int>>, keys: set<int>, ns: seq<int>, a: int, b: int)
    requires Undirected(adj, keys)
    requires Elements(ns) <= adj.Keys
    requires a in WithWay(adj, ns) && b in WithWay(adj, ns)[a]
    ensures UndirectedEdge(WithWay(adj, ns), keys + Elements(ns), a, b)
  {
    var adj' := WithWay(adj, ns);
    assert adj'[a] == adj[a] + Linked(ns, a);
    if b in adj[a] {
      assert a in adj[b];
    } else {
      LinkedIsUndirected(ns, a, b);
    }
    assert adj'[b] == adj[b] + Linked(ns, b);
  }

  /* ---------------------------- name cleaning ---------------------------- */

  predicate Kept(c: char) {
    'a' <= c <= 'z' || 'A' <= c <= 'Z' || c == ' '
  }

  predicate IsCleanChar(c: char) {
    'a' <= c <= 'z' || c == ' '
  }

  function ToLower(c: char): (r: char)
    ensures Kept(c) ==> IsCleanChar(r)
    ensures IsCleanChar(c) ==> r == c
    ensures 'A' <= c <= 'Z' ==> r as int == c as int - 'A' as int + 'a' as int
  {
    if 'A' <= c <= 'Z' then (c as int - 'A' as int + 'a' as int) as char else c
  }

  /** Drops every character outside [a-zA-Z ] and lower-cases the rest. */
  function CleanString(s: string): (r: string)
    ensures |r| <= |s|
    ensures forall i :: 0 <= i < |r| ==> IsCleanChar(r[i])
  {
    if s == [] then []
    else (if Kept(s[0]) then [ToLower(s[0])] else []) + CleanString(s[1..])
  }

  /** Cleaning works character by character, so the kept characters stay in
      their original order. */
  lemma {:induction false} CleanStringAppend(a: string, b: string)
    ensures CleanString(a + b) == CleanString(a) + CleanString(b)
  {
    if a != [] {
      assert (a + b)[1..] == a[1..] + b;
      CleanStringAppend(a[1..], b);
    } else {
      assert a + b == b;
    }
  }

  lemma CleanStringChar(c: char)
    ensures CleanString([c]) == if Kept(c) then [ToLower(c)] else []
  {
    assert [c][1..] == [];
  }

  /** A string that is already clean is left as it is. */
  lemma {:induction false} CleanStringFixesClean(s: string)
    requires forall i :: 0 <= i < |s| ==> IsCleanChar(s[i])
    ensures CleanString(s) == s
  {
    if s != [] {
      CleanStringFixesClean(s[1..]);
    }
  }

  lemma CleanStringIdempotent(s: string)
    ensures CleanString(CleanString(s)) == CleanString(s)
  {
    CleanStringFixesClean(CleanString(s));
  }

  /** The named raw nodes, kept under their ids. */
  function NamedNodes(m: map<int, Node>): (r: map<int, Node>)
    ensures forall k :: k in r <==> k in m && "name" in m[k].info
    ensures forall k :: k in r ==> r[k] == m[k]
  {
    map k | k in m && "name" in m[k].info :: m[k]
  }

  function LocationOf(nd: Node, id: int): Location {
    Location(nd.lat, nd.lon, Lookup(nd.info, "name"), id)
  }

  /** Distance from the query point to the node stored under `id`. */
  function DistanceTo(nodes: map<int, Node>, lon: real, lat: real, dist: Distance, id: int): real
    requires id in nodes
  {
    dist(lon, lat, nodes[id].lon, nodes[id].lat)
  }

  /** `id` is what the nearest-node scan over `order` yields: 0 when no
      node of `nodes` is nearer than Double.MAX_VALUE, otherwise the id of a
      nearest node, the first one in `order`. */
  ghost predicate IsClosest(nodes: map<int, Node>, lon: real, lat: real, dist: Distance, order: seq<int>, id: int)
  {
    (forall i :: 0 <= i < |order| ==> order[i] in nodes) &&
    if forall i :: 0 <= i < |order| ==> DistanceTo(nodes, lon, lat, dist, order[i]) >= MaxDouble then id == 0
    else
      id in nodes &&
      (forall x :: x in nodes ==> DistanceTo(nodes, lon, lat, dist, id) <= DistanceTo(nodes, lon, lat, dist, x)) &&
      exists k :: 0 <= k < |order| && order[k] == id &&
        forall j :: 0 <= j < k ==> DistanceTo(nodes, lon, lat, dist, order[j]) > DistanceTo(nodes, lon, lat, dist, id)
  }

  /** The scan has one outcome: the strict comparison keeps the first of several equally near ids. */
  lemma ClosestUnique(nodes: map<int, Node>, lon: real, lat: real, dist: Distance, order: seq<int>, a: int, b: int)
    requires IsClosest(nodes, lon, lat, dist, order, a) && IsClosest(nodes, lon, lat, dist, order, b)
    ensures a == b
  {
    if !forall i :: 0 <= i < |order| ==> DistanceTo(nodes, lon, lat, dist, order[i]) >= MaxDouble {
      var ka :| 0 <= ka < |order| && order[ka] == a &&
        forall j :: 0 <= j < ka ==> DistanceTo(nodes, lon, lat, dist, order[j]) > DistanceTo(nodes, lon, lat, dist, a);
      var kb :| 0 <= kb < |order| && order[kb] == b &&
        forall j :: 0 <= j < kb ==> DistanceTo(nodes, lon, lat, dist, order[j]) > DistanceTo(nodes, lon, lat, dist, b);
      assert DistanceTo(nodes, lon, lat, dist, a) == DistanceTo(nodes, lon, lat, dist, b);
      assert DistanceTo(nodes, lon, lat, dist, order[ka]) == DistanceTo(nodes, lon, lat, dist, order[kb]);
      assert ka == kb;
    }
  }

  /** The graph store. `rowNodes` holds every parsed node until `Clean` empties
      it; `validNodes`/`ids` hold the routable nodes; `nameNodes` the named ones;
      `cleanNameToId` (filled by the loader) maps cleaned names to node ids. */
  class GraphDB {
    var rowNodes: map<int, Node>
    var validNodes: map<int, Node>
    var nameNodes: map<int, Node>
    var ids: set<int>
    var cleanNameToId: map<string, seq<int>>

    /** Every map is keyed by its nodes' ids, and `ids` is the key set of `validNodes`. */
    ghost predicate Valid()
      reads this
    {
      (forall k :: k in rowNodes ==> rowNodes[k].id == k) &&
      (forall k :: k in validNodes ==> validNodes[k].id == k) &&
      (forall k :: k in nameNodes ==> nameNodes[k].id == k) &&
      ids == validNodes.Keys
    }

    /** The adjacency of every raw node. */
    ghost function RawAdjacency(): map<int, set<int>>
      reads this`rowNodes, rowNodes.Values`adjacent
    {
      map k | k in rowNodes :: rowNodes[k].adjacent
    }

    /** The adjacency of the routable graph. */
    ghost function Adjacency(): map<int, set<int>>
      reads this`validNodes, validNodes.Values`adjacent
    {
      map k | k in validNodes :: validNodes[k].adjacent
    }

    /** While ways are being added: routable nodes are the raw node objects
        themselves, and the raw adjacency is symmetric and loop-free over them. */
    ghost predicate Building()
      reads this, rowNodes.Values`adjacent
    {
      Valid() &&
      (forall k :: k in validNodes ==> k in rowNodes && validNodes[k] == rowNodes[k]) &&
      Undirected(RawAdjacency(), validNodes.Keys)
    }

    /** The routable graph is undirected: symmetric, loop-free and closed. */
    ghost predicate Routing()
      reads this, validNodes.Values`adjacent
    {
      Valid() && Undirected(Adjacency(), validNodes.Keys)
    }

    constructor (nodes: map<int, Node>)
      requires forall k :: k in nodes ==> nodes[k].id == k && nodes[k].adjacent == {}
      ensures Building() && rowNodes == nodes
      ensures validNodes == map[] && nameNodes == map[] && ids == {} && cleanNameToId == map[]
    {
      rowNodes, validNodes, nameNodes, ids, cleanNameToId := nodes, map[], map[], {}, map[];
      new;
      assert forall a :: a in RawAdjacency() ==> RawAdjacency()[a] == {};
    }

    lemma BuildingIsRouting()
      requires Building()
      ensures Routing()
    {
      var adj, raw := Adjacency(), RawAdjacency();
      forall a, b | a in adj && b in adj[a]
        ensures UndirectedEdge(adj, validNodes.Keys, a, b)
      {
        assert adj[a] == raw[a];
        assert UndirectedEdge(raw, validNodes.Keys, a, b);
        assert adj[b] == raw[b];
      }
    }

    /** The way names recorded on every raw node. */
    ghost function WayTags(): map<int, set<string>>
      reads this`rowNodes, rowNodes.Values`way
    {
      map k | k in rowNodes :: rowNodes[k].way
    }

    /** Adds a way with at least two node ids to the routable graph: each of its
        ids becomes routable, each consecutive pair is linked both ways, and
        a name tag is recorded on each of its nodes. */
    method AddValidNodesOfWay(way: Way)
      requires Building()
      requires forall i :: 0 <= i < |way.nodesIdOfWay| ==> way.nodesIdOfWay[i] in rowNodes
      modifies this`ids, this`validNodes, rowNodes.Values`adjacent, rowNodes.Values`way
      ensures Building() && rowNodes == old(rowNodes)
      ensures !Routable(way) ==> ids == old(ids) && validNodes == old(validNodes)
      ensures Routable(way) ==> forall k :: k in validNodes <==> k in old(validNodes) || k in way.nodesIdOfWay
      ensures Routable(way) ==> forall k :: k in validNodes ==>
                validNodes[k] == if k in way.nodesIdOfWay then rowNodes[k] else old(validNodes)[k]
      ensures RawAdjacency() == WithWay(old(RawAdjacency()), way.nodesIdOfWay)
      ensures WayTags() == Tagged(old(WayTags()), way)
    {
      var ns := way.nodesIdOfWay;
      if |ns| < 2 {
        WithWayShort(RawAdjacency(), ns);
        return;
      }
      ghost var oldRaw := RawAdjacency();
      LinkNodes(ns, Lookup(way.info, "name"));
      WithWayUndirected(oldRaw, old(validNodes).Keys, ns);
      forall k ensures k in validNodes.Keys <==> k in old(validNodes).Keys + Elements(ns) {
      }
      assert validNodes.Keys == old(validNodes).Keys + Elements(ns);
    }

    /** The loop of `AddValidNodesOfWay`: walks the ids of a way in order, making
        each routable, linking it to its predecessor and tagging it with `name`. */
    method LinkNodes(ns: seq<int>, name: Option<string>)
      requires Valid()
      requires forall i :: 0 <= i < |ns| ==> ns[i] in rowNodes
      modifies this`ids, this`validNodes, rowNodes.Values`adjacent, rowNodes.Values`way
      ensures Valid() && rowNodes == old(rowNodes)
      ensures forall k :: k in validNodes <==> k in old(validNodes) || k in ns
      ensures forall k :: k in validNodes ==>
                validNodes[k] == if k in ns then rowNodes[k] else old(validNodes)[k]
      ensures RawAdjacency() == WithWay(old(RawAdjacency()), ns)
      ensures WayTags() == TaggedBy(old(WayTags()), ns, name)
    {
      ghost var oldRaw := RawAdjacency();
      ghost var oldTags := WayTags();
      ghost var oldValid := validNodes;
      var oldNode: Node? := null;
      var j := 0;
      WithWayShort(oldRaw, ns[..0]);
      TaggedByEmpty(oldTags, name);
      while j < |ns|
        invariant 0 <= j <= |ns|
        invariant Valid() && rowNodes == old(rowNodes)
        invariant validNodes == Override(oldValid, rowNodes, ns[..j])
        invariant oldNode == if j == 0 then null else rowNodes[ns[j - 1]]
        invariant RawAdjacency() == WithWay(oldRaw, ns[..j])
        invariant WayTags() == TaggedBy(oldTags, ns[..j], name)
      {
        var node := rowNodes[ns[j]];
        if j > 0 {
          assert ns[j - 1] in rowNodes && rowNodes[ns[j - 1]].id == ns[j - 1];
        }
        Visit(ns[j], oldNode, name);
        if j == 0 {
          WithWayShort(oldRaw, ns[..1]);
        } else {
          WithWaySnoc(oldRaw, ns, j);
        }
        TaggedBySnoc(oldTags, ns, j, name);
        oldNode := node;
        PrefixSnoc(ns, j);
        assert ns[..j + 1][..j] == ns[..j];
        j := j + 1;
      }
      assert ns[..j] == ns;
      OverrideSpec(oldValid, rowNodes, ns);
    }

    /** One step of the loop of `AddValidNodesOfWay`: the node `nodeId` becomes
        routable, is linked to the previous node of the way, and is tagged. */
    method Visit(nodeId: int, oldNode: Node?, name: Option<string>)
      requires Valid() && nodeId in rowNodes
      requires oldNode != null ==> oldNode.id in rowNodes && rowNodes[oldNode.id] == oldNode
      modifies this`ids, this`validNodes, {rowNodes[nodeId]}`adjacent, {rowNodes[nodeId]}`way
      modifies (if oldNode == null then {} else {oldNode})`adjacent
      ensures Valid() && rowNodes == old(rowNodes)
      ensures ids == old(ids) + {nodeId} && validNodes == old(validNodes)[nodeId := rowNodes[nodeId]]
      ensures RawAdjacency() ==
                if oldNode == null then old(RawAdjacency())
                else LinkPair(old(RawAdjacency()), oldNode.id, nodeId)
      ensures WayTags() == TagOne(old(WayTags()), nodeId, name)
    {
      var node := rowNodes[nodeId];
      ghost var raw, tags := RawAdjacency(), WayTags();
      ids := ids + {nodeId};
      validNodes := validNodes[nodeId := node];
      assert Valid() && RawAdjacency() == raw && WayTags() == tags;
      LinkAdjacent(node, oldNode);
      TagWay(node, name);
    }

    /** `node.addAdjacent(oldNode)` seen on the raw adjacency. */
    method LinkAdjacent(node: Node, oldNode: Node?)
      requires Valid() && node.id in rowNodes && rowNodes[node.id] == node
      requires oldNode != null ==> oldNode.id in rowNodes && rowNodes[oldNode.id] == oldNode
      modifies {node}`adjacent, (if oldNode == null then {} else {oldNode})`adjacent
      ensures WayTags() == old(WayTags())
      ensures RawAdjacency() ==
                if oldNode == null then old(RawAdjacency())
                else LinkPair(old(RawAdjacency()), oldNode.id, node.id)
    {
      ghost var adj := RawAdjacency();
      node.AddAdjacent(oldNode);
      ghost var adj' := if oldNode == null then adj else LinkPair(adj, oldNode.id, node.id);
      forall k | k in rowNodes
        ensures rowNodes[k].adjacent == adj'[k]
      {
        var nd := rowNodes[k];
        assert nd.id == k;
        if oldNode != null {
          assert adj'[k] == adj[k] + PairLinks(oldNode.id, node.id, k);
        }
        if k == node.id {
          assert nd == node;
        } else if oldNode != null && k == oldNode.id {
          assert nd == oldNode && nd != node;
        } else {
          assert nd != node && nd != oldNode;
        }
      }
      assert RawAdjacency() == adj';
    }

    /** `node.way.add(name)` when the way has a name, seen on the way names of
        all raw nodes. */
    method TagWay(node: Node, name: Option<string>)
      requires Valid() && node.id in rowNodes && rowNodes[node.id] == node
      modifies node`way
      ensures WayTags() == TagOne(old(WayTags()), node.id, name)
      ensures RawAdjacency() == old(RawAdjacency())
    {
      ghost var tags := WayTags();
      if name.Some? {
        node.way := node.way + {name.value};
      }
      forall k | k in rowNodes
        ensures rowNodes[k].way == TagOne(tags, node.id, name)[k]
      {
        assert rowNodes[k].id == k;
      }
    }

    /** Records the named raw nodes in `nameNodes` and then drops the raw nodes.
        `order` is the iteration order of the raw nodes' key set. */
    method Clean(order: seq<int>)
      requires Valid()
      requires Elements(order) == rowNodes.Keys
      modifies this`nameNodes, this`rowNodes
      ensures Valid()
      ensures nameNodes == old(nameNodes) + NamedNodes(old(rowNodes))
      ensures rowNodes == map[]
    {
      var i := 0;
      while i < |order|
        invariant 0 <= i <= |order|
        invariant rowNodes == old(rowNodes)
        invariant forall k :: k in nameNodes <==>
                    k in old(nameNodes) || (k in order[..i] && "name" in rowNodes[k].info)
        invariant forall k :: k in nameNodes ==>
                    nameNodes[k] == if k in order[..i] && "name" in rowNodes[k].info then rowNodes[k]
                                    else old(nameNodes)[k]
      {
        var id := order[i];
        var nd := rowNodes[id];
        if "name" in nd.info {
          nameNodes := nameNodes[id := nd];
        }
        PrefixSnoc(order, i);
        i := i + 1;
      }
      assert order[..i] == order;
      ghost var named := NamedNodes(old(rowNodes));
      forall k | k in old(nameNodes) + named
        ensures k in nameNodes && nameNodes[k] == (old(nameNodes) + named)[k]
      {
      }
      assert forall k :: k in nameNodes <==> k in old(nameNodes) + named;
      rowNodes := map[];
    }

    function Vertices(): (r: set<int>)
      reads this
      requires Valid()
      ensures r == validNodes.Keys
    {
      ids
    }

    /** The neighbours of a routable node; any other id is a null dereference. */
    function Adjacent(v: int): (r: Result<set<int>>)
      reads this, validNodes.Values`adjacent
      ensures r.Ok? <==> v in validNodes
      ensures r.Ok? ==> r.value == Adjacency()[v]
    {
      if v in validNodes then Ok(validNodes[v].adjacent) else Err(NullPointer)
    }

    /** In the routable graph every neighbour is itself routable and lists the
        node back, and no node is its own neighbour. */
    lemma AdjacentSymmetric(a: int, b: int)
      requires Routing()
      requires Adjacent(a).Ok? && b in Adjacent(a).value
      ensures Adjacent(b).Ok? && a in Adjacent(b).value && a != b
    {
      assert b in Adjacency()[a];
    }

    /** Scans `ids` in `order` (the iteration order of the id set) keeping the
        first strictly nearest id; 0 when no id is nearer than Double.MAX_VALUE. */
    method Closest(lon: real, lat: real, dist: Distance, order: seq<int>) returns (closeId: int)
      requires Valid()
      requires Elements(order) == ids
      ensures IsClosest(validNodes, lon, lat, dist, order, closeId)
    {
      var minDist := MaxDouble;
      closeId := 0;
      ghost var best := -1;
      for i := 0 to |order|
        invariant -1 <= best < i
        invariant best == -1 ==> (closeId == 0 && minDist == MaxDouble &&
                    forall j :: 0 <= j < i ==> DistanceTo(validNodes, lon, lat, dist, order[j]) >= MaxDouble)
        invariant best >= 0 ==> (closeId == order[best] && minDist == DistanceTo(validNodes, lon, lat, dist, closeId) &&
                    minDist < MaxDouble)
        invariant forall j :: 0 <= j < i ==> minDist <= DistanceTo(validNodes, lon, lat, dist, order[j])
        invariant forall j :: 0 <= j < best ==> DistanceTo(validNodes, lon, lat, dist, order[j]) > minDist
      {
        var id := order[i];
        assert id in ids;
        var currentDist := dist(lon, lat, validNodes[id].lon, validNodes[id].lat);
        if currentDist < minDist {
          minDist := currentDist;
          closeId := id;
          best := i;
        }
      }
      assert forall i :: 0 <= i < |order| ==> order[i] in validNodes;
      if best >= 0 {
        forall id | id in validNodes ensures DistanceTo(validNodes, lon, lat, dist, closeId) <= DistanceTo(validNodes, lon, lat, dist, id) {
          var j :| 0 <= j < |order| && order[j] == id;
        }
      }
    }

    /** Prefix search: a missing or empty prefix gives no names; otherwise the
        cleaned prefix is looked up in the name trie (passed in as `trie`). */
    static function GetLocationsByPrefix(prefix: Option<string>, trie: string -> seq<string>): (r: seq<string>)
      ensures prefix == None || prefix == Some("") ==> r == []
      ensures prefix.Some? && prefix.value != "" ==> r == trie(CleanString(prefix.value))
    {
      if prefix == None || prefix.value == "" then [] else trie(CleanString(prefix.value))
    }

    /** Exact lookup: one record per id stored under the cleaned name, in stored
        order; no records for a missing or unknown name. An id without a named
        node is a null dereference. */
    method GetLocations(locationName: Option<string>) returns (result: Result<seq<Location>>)
      ensures locationName == None ==> result == Ok([])
      ensures locationName.Some? && CleanString(locationName.value) !in cleanNameToId ==> result == Ok([])
      ensures locationName.Some? && CleanString(locationName.value) in cleanNameToId ==>
                var stored := cleanNameToId[CleanString(locationName.value)];
                if (forall i :: 0 <= i < |stored| ==> stored[i] in nameNodes) then
                  result.Ok? && |result.value| == |stored| &&
                  forall i :: 0 <= i < |stored| ==> result.value[i] == LocationOf(nameNodes[stored[i]], stored[i])
                else (result == Err(NullPointer))
    {
      if locationName == None {
        return Ok([]);
      }
      var cleanName := CleanString(locationName.value);
      if cleanName !in cleanNameToId {
        return Ok([]);
      }
      var stored := cleanNameToId[cleanName];
      var acc: seq<Location> := [];
      for i := 0 to |stored|
        invariant |acc| == i
        invariant forall j :: 0 <= j < i ==> stored[j] in nameNodes && acc[j] == LocationOf(nameNodes[stored[j]], stored[j])
      {
        var id := stored[i];
        if id !in nameNodes {
          assert !(forall j :: 0 <= j < |stored| ==> stored[j] in nameNodes);
          assert stored == cleanNameToId[CleanString(locationName.value)];
          return Err(NullPointer);
        }
        var nd := nameNodes[id];
        acc := acc + [Location(nd.lat, nd.lon, Lookup(nd.info, "name"), id)];
      }
      return Ok(acc);
    }
  }
}
