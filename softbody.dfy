/** A soft body: an indexed node/connection graph kept in two copies, the
    "work" copy the simulation advances and the "draw" copy readers use
    (SoftBody.h, SoftBody.cpp). */
module SoftBodies {
  import opened Vectors
  import opened Nodes

  /** A spring between two nodes, given by their indices, with its rest length. */
  datatype Connection = Connection(node1: nat, node2: nat, neutrallen: real)

  /** The glm primitives that need a square root, kept abstract. */
  datatype Geometry = Geometry(length: Vec3 -> real, normalize: Vec3 -> Vec3)

  /** A force law: the force a connection applies to its first node, given
      the body's nodes (the second node receives its negation). */
  type ForceLaw = (Connection, seq<NodeValue>) -> Vec3

  /** The spring constant of the default force law. */
  const K: real := 98.0

  /** The default force law: K times the stretch beyond rest length, along
      the direction from node1 to node2. A connection that does not index
      two nodes gets no force. */
  function StandardForceCalculator(geom: Geometry): ForceLaw {
    (c: Connection, nodes: seq<NodeValue>) =>
      if c.node1 < |nodes| && c.node2 < |nodes| then
        var p1 := nodes[c.node1].position;
        var p2 := nodes[c.node2].position;
        Scale(geom.normalize(Sub(p2, p1)), K * (geom.length(Sub(p1, p2)) - c.neutrallen))
      else Zero
  }

  /** Every index pair names two of the `n` nodes. */
  ghost predicate PairsInRange(c: seq<(nat, nat)>, n: nat) {
    forall k :: 0 <= k < |c| ==> c[k].0 < n && c[k].1 < n
  }

  /** Every connection joins two of the `n` nodes. */
  ghost predicate ConnectionsInRange(cs: seq<Connection>, n: nat) {
    forall k :: 0 <= k < |cs| ==> cs[k].node1 < n && cs[k].node2 < n
  }

  /** Every node's adjacency list holds indices of existing connections. */
  ghost predicate AdjacencyInRange(nodes: seq<NodeValue>, m: nat) {
    forall j, a :: 0 <= j < |nodes| && 0 <= a < |nodes[j].connections| ==> nodes[j].connections[a] < m
  }

  // ---------------------------------------------------------------------
  // Graph construction, as a specification

  /** The adjacency list node `j` ends up with: the connection indices that
      touch `j`, in connection order, once per endpoint that is `j`. */
  function Adjacency(c: seq<(nat, nat)>, j: nat): seq<nat> {
    AdjacencyUpTo(c, |c|, j)
  }

  /** Node `j`'s adjacency list once the first `n` pairs are handled. */
  function AdjacencyUpTo(c: seq<(nat, nat)>, n: nat, j: nat): seq<nat>
    requires n <= |c|
  {
    if n == 0 then [] else AdjacencyUpTo(c, n - 1, j) + Hits(c[n - 1], j, n - 1)
  }

  /** What connection `k`, joining pair `p`, appends to node `j`'s list:
      `k` for the first endpoint if it is `j`, then for the second. */
  function Hits(p: (nat, nat), j: nat, k: nat): seq<nat> {
    (if p.0 == j then [k] else []) + (if p.1 == j then [k] else [])
  }

  /** How often a pair touches node `j`: 0, 1, or 2 for a self-pair. */
  function Touches(p: (nat, nat), j: nat): nat {
    (if p.0 == j then 1 else 0) + (if p.1 == j then 1 else 0)
  }

  /** The number of occurrences of `x` in `l`. */
  function Count(l: seq<nat>, x: nat): nat {
    if l == [] then 0 else Count(l[..|l| - 1], x) + (if l[|l| - 1] == x then 1 else 0)
  }

  /** Occurrences in a concatenation add up. */
  lemma {:induction false} CountConcat(a: seq<nat>, b: seq<nat>, x: nat)
    ensures Count(a + b, x) == Count(a, x) + Count(b, x)
    decreases |b|
  {
    if b != [] {
      var b' := b[..|b| - 1];
      assert (a + b)[..|a + b| - 1] == a + b';
      CountConcat(a, b', x);
    } else {
      assert a + b == a;
    }
  }

  /** Count agrees with the multiplicity in the sequence's multiset. */
  lemma {:induction false} CountMultiset(l: seq<nat>, x: nat)
    ensures Count(l, x) == multiset(l)[x]
    decreases |l|
  {
    if l != [] {
      var l' := l[..|l| - 1];
      assert l == l' + [l[|l| - 1]];
      CountMultiset(l', x);
      assert multiset(l) == multiset(l') + multiset{l[|l| - 1]};
    }
  }

  /** Connection `k` appends `k` to node `j`'s list once per endpoint that
      is `j`, and nothing else. */
  lemma HitsCount(p: (nat, nat), j: nat, k: nat, x: nat)
    ensures Count(Hits(p, j, k), x) == if x == k then Touches(p, j) else 0
    ensures forall a :: 0 <= a < |Hits(p, j, k)| ==> Hits(p, j, k)[a] == k
  {
    var a := if p.0 == j then [k] else [];
    var b := if p.1 == j then [k] else [];
    CountConcat(a, b, x);
    assert [k][..0] == [];
  }

  /** Node `j`'s adjacency list holds connection `k` exactly as many times as
      `k` touches `j`, and nothing else: each pair appends its index to both
      endpoints, twice to a node paired with itself. */
  lemma AdjacencyCounts(c: seq<(nat, nat)>, j: nat, k: nat)
    ensures multiset(Adjacency(c, j))[k] == if k < |c| then Touches(c[k], j) else 0
  {
    AdjacencyUpToCounts(c, |c|, j, k);
    CountMultiset(Adjacency(c, j), k);
  }

  /** AdjacencyCounts for the first `n` pairs. */
  lemma {:induction false} AdjacencyUpToCounts(c: seq<(nat, nat)>, n: nat, j: nat, k: nat)
    requires n <= |c|
    ensures Count(AdjacencyUpTo(c, n, j), k) == if k < n then Touches(c[k], j) else 0
    decreases n
  {
    if n > 0 {
      AdjacencyUpToCounts(c, n - 1, j, k);
      HitsCount(c[n - 1], j, n - 1, k);
      CountConcat(AdjacencyUpTo(c, n - 1, j), Hits(c[n - 1], j, n - 1), k);
    }
  }

  /** Node `j`'s adjacency list is in ascending connection order and names
      only existing connections. */
  lemma AdjacencySorted(c: seq<(nat, nat)>, j: nat)
    ensures forall a, b :: 0 <= a < b < |Adjacency(c, j)| ==> Adjacency(c, j)[a] <= Adjacency(c, j)[b]
    ensures forall a :: 0 <= a < |Adjacency(c, j)| ==> Adjacency(c, j)[a] < |c|
  {
    assert Adjacency(c, j) == AdjacencyUpTo(c, |c|, j);
    AdjacencyUpToSorted(c, |c|, j);
  }

  /** AdjacencySorted for the first `n` pairs. */
  lemma {:induction false} AdjacencyUpToSorted(c: seq<(nat, nat)>, n: nat, j: nat)
    requires n <= |c|
    ensures forall a, b :: 0 <= a < b < |AdjacencyUpTo(c, n, j)| ==>
      AdjacencyUpTo(c, n, j)[a] <= AdjacencyUpTo(c, n, j)[b]
    ensures forall a :: 0 <= a < |AdjacencyUpTo(c, n, j)| ==> AdjacencyUpTo(c, n, j)[a] < n
    decreases n
  {
    if n > 0 {
      var prev := AdjacencyUpTo(c, n - 1, j);
      var h := Hits(c[n - 1], j, n - 1);
      var l := AdjacencyUpTo(c, n, j);
      AdjacencyUpToSorted(c, n - 1, j);
      HitsCount(c[n - 1], j, n - 1, n - 1);
      assert l == prev + h;
      forall a | 0 <= a < |l|
        ensures l[a] == (if a < |prev| then prev[a] else n - 1) && l[a] < n
      {
        if a >= |prev| {
          assert l[a] == h[a - |prev|];
        } else {
          assert l[a] == prev[a];
        }
      }
      forall a, b | 0 <= a < b < |l|
        ensures l[a] <= l[b]
      {
        if b < |prev| {
          assert prev[a] <= prev[b];
        }
      }
    }
  }

  /** The nodes a body is built with: node `j` has the `j`-th position, the
      given mass, default velocity, force and flags, and the connections
      that touch it. */
  function InitialNodes(positions: seq<Vec3>, c: seq<(nat, nat)>, nodeweight: real): (r: seq<NodeValue>)
    ensures |r| == |positions|
  {
    NodesUpTo(positions, c, |c|, nodeweight)
  }

  /** The nodes under construction once the first `n` pairs are handled. */
  function NodesUpTo(positions: seq<Vec3>, c: seq<(nat, nat)>, n: nat, nodeweight: real): (r: seq<NodeValue>)
    requires n <= |c|
    ensures |r| == |positions|
  {
    seq(|positions|, j requires 0 <= j < |positions| =>
      DefaultNode.(position := positions[j], mass := nodeweight, connections := AdjacencyUpTo(c, n, j)))
  }

  /** The connection list a body is built with: one connection per pair, in
      pair order, whose rest length is the distance between its two nodes'
      initial positions. */
  function InitialConnections(positions: seq<Vec3>, c: seq<(nat, nat)>, geom: Geometry): (r: seq<Connection>)
    requires PairsInRange(c, |positions|)
    ensures |r| == |c|
  {
    seq(|c|, k requires 0 <= k < |c| =>
      Connection(c[k].0, c[k].1, geom.length(Sub(positions[c[k].0], positions[c[k].1]))))
  }

  /** A freshly built body satisfies the index invariants of a SoftBody. */
  lemma InitialGraphInRange(positions: seq<Vec3>, c: seq<(nat, nat)>, nodeweight: real, geom: Geometry)
    requires PairsInRange(c, |positions|)
    ensures ConnectionsInRange(InitialConnections(positions, c, geom), |positions|)
    ensures AdjacencyInRange(InitialNodes(positions, c, nodeweight), |c|)
  {
    var nodes := InitialNodes(positions, c, nodeweight);
    forall j, a | 0 <= j < |nodes| && 0 <= a < |nodes[j].connections|
      ensures nodes[j].connections[a] < |c|
    {
      AdjacencySorted(c, j);
      assert nodes[j].connections == Adjacency(c, j);
    }
  }

  // ---------------------------------------------------------------------
  // Write-back, as a specification

  /** The work nodes after a write-back from `source`: with equal node
      counts each target node takes the source node's lock, mass and two UI
      flags; with different counts nothing changes. */
  function CopyBackSpec(source: seq<NodeValue>, target: seq<NodeValue>): (r: seq<NodeValue>)
    ensures |r| == |target|
  {
    if |source| != |target| then target else
      seq(|target|, i requires 0 <= i < |target| =>
      target[i].(islocked := source[i].islocked, mass := source[i].mass,
                 imguiopen := source[i].imguiopen, drawconnections := source[i].drawconnections))
  }

  /** Write-back never touches what the integrator owns (position,
      velocity, force) nor the adjacency lists; with equal counts the four
      editable fields are the source's, otherwise the target is unchanged. */
  lemma CopyBackFields(source: seq<NodeValue>, target: seq<NodeValue>)
    ensures var r := CopyBackSpec(source, target);
      |r| == |target| &&
      (forall i :: 0 <= i < |r| ==>
        r[i].position == target[i].position && r[i].velocity == target[i].velocity &&
        r[i].force == target[i].force && r[i].connections == target[i].connections) &&
      (|source| == |target| ==> forall i :: 0 <= i < |r| ==>
        r[i].islocked == source[i].islocked && r[i].mass == source[i].mass &&
        r[i].imguiopen == source[i].imguiopen && r[i].drawconnections == source[i].drawconnections) &&
      (|source| != |target| ==> r == target)
  {
  }

  /** A second write-back from the same source changes nothing. */
  lemma CopyBackIdempotent(source: seq<NodeValue>, target: seq<NodeValue>)
    ensures CopyBackSpec(source, CopyBackSpec(source, target)) == CopyBackSpec(source, target)
  {
  }

  // ---------------------------------------------------------------------
  // Objects

  /** The connection vector that the work and draw copies share. */
  class ConnectionList {
    var items: seq<Connection>

    constructor ()
      ensures items == []
    {
      items := [];
    }

    /** `push_back` */
    method PushBack(c: Connection)
      modifies this
      ensures items == old(items) + [c]
    {
      items := items + [c];
    }
  }

  /** One copy of a body: its own node vector and a reference to a
      connection vector. */
  class SoftRepresentation {
    var Nodes: seq<NodeValue>
    var Connections: ConnectionList

    constructor (connections: ConnectionList)
      ensures Nodes == [] && Connections == connections
    {
      Nodes := [];
      Connections := connections;
    }

    /** `Copy`: this copy's nodes become the source's, element by element,
        whatever this copy held before, and it refers to the source's
        connection vector (which is shared, not duplicated). The source is
        left unchanged, also when it is this copy. */
    method Copy(source: SoftRepresentation)
      modifies this
      ensures Nodes == old(source.Nodes) && Connections == old(source.Connections)
      ensures source.Nodes == old(source.Nodes) && source.Connections == old(source.Connections)
      ensures Connections.items == old(source.Connections.items)
    {
      Nodes := source.Nodes;
      Connections := source.Connections;
    }
  }

  class SoftBody {
    /** The copy the simulation advances. */
    const workbody: SoftRepresentation
    /** The copy readers and the UI use. */
    const body: SoftRepresentation
    var drag: real
    var ForceCalculator: ForceLaw

    /** The two copies are distinct objects and, in each, every connection
        joins two existing nodes and every adjacency entry names an existing
        connection. */
    ghost predicate Valid()
      reads workbody, workbody.Connections, body, body.Connections
    {
      workbody != body &&
      ConnectionsInRange(workbody.Connections.items, |workbody.Nodes|) &&
      AdjacencyInRange(workbody.Nodes, |workbody.Connections.items|) &&
      ConnectionsInRange(body.Connections.items, |body.Nodes|) &&
      AdjacencyInRange(body.Nodes, |body.Connections.items|)
    }

    /** Builds the graph from positions and index pairs (mesh faces are not
        used), then publishes it to the draw copy. Pair indices are not
        checked, so they must name existing positions; a pair of a node with
        itself is accepted. */
    constructor (nodepositions: seq<Vec3>, c: seq<(nat, nat)>, nodeweight: real, geom: Geometry)
      requires PairsInRange(c, |nodepositions|)
      ensures Valid()
      ensures fresh(workbody) && fresh(body) && fresh(workbody.Connections)
      ensures workbody.Nodes == InitialNodes(nodepositions, c, nodeweight)
      ensures workbody.Connections.items == InitialConnections(nodepositions, c, geom)
      ensures body.Nodes == workbody.Nodes && body.Connections == workbody.Connections
      ensures drag == 0.1 && ForceCalculator == StandardForceCalculator(geom)
    {
      var list := new ConnectionList();
      var work := new SoftRepresentation(list);
      var draw := new SoftRepresentation(list);
      workbody := work;
      body := draw;
      new;
      PlaceNodes(work, nodepositions, c, nodeweight);
      for k := 0 to |c|
        invariant work.Connections == list
        invariant work.Nodes == NodesUpTo(nodepositions, c, k, nodeweight)
        invariant list.items == InitialConnections(nodepositions, c[..k], geom)
      {
        AddConnection(work, list, nodepositions, c, k, nodeweight, geom);
      }
      assert c[..|c|] == c;
      InitialGraphInRange(nodepositions, c, nodeweight, geom);
      draw.Copy(work);
      drag := 0.1;
      ForceCalculator := StandardForceCalculator(geom);
    }

    /** The constructor's first loop: one node per position, with the
        given mass and no connections yet. */
    static method PlaceNodes(work: SoftRepresentation, nodepositions: seq<Vec3>, c: seq<(nat, nat)>, nodeweight: real)
      modifies work
      ensures work.Nodes == NodesUpTo(nodepositions, c, 0, nodeweight)
      ensures work.Connections == old(work.Connections)
    {
      var n := |nodepositions|;
      work.Nodes := seq(n, _ => DefaultNode);
      for i := 0 to n
        invariant |work.Nodes| == n && work.Connections == old(work.Connections)
        invariant forall j :: 0 <= j < i ==>
          work.Nodes[j] == DefaultNode.(position := nodepositions[j], mass := nodeweight)
        invariant forall j :: i <= j < n ==> work.Nodes[j] == DefaultNode
      {
        work.Nodes := work.Nodes[i := work.Nodes[i].(position := nodepositions[i], mass := nodeweight)];
      }
    }

    /** The constructor's second loop body for pair `k`: a connection
        whose rest length is the current distance of its two nodes, and
        index `k` appended to the adjacency list of each endpoint. */
    static method AddConnection(work: SoftRepresentation, list: ConnectionList, nodepositions: seq<Vec3>,
                                c: seq<(nat, nat)>, k: nat, nodeweight: real, geom: Geometry)
      requires PairsInRange(c, |nodepositions|) && k < |c|
      requires work.Connections == list
      requires work.Nodes == NodesUpTo(nodepositions, c, k, nodeweight)
      requires list.items == InitialConnections(nodepositions, c[..k], geom)
      modifies work, list
      ensures work.Connections == list
      ensures work.Nodes == NodesUpTo(nodepositions, c, k + 1, nodeweight)
      ensures list.items == InitialConnections(nodepositions, c[..k + 1], geom)
    {
      var a, b := c[k].0, c[k].1;
      ghost var before := work.Nodes;
      var node1 := work.Nodes[a];
      var node2 := work.Nodes[b];
      list.PushBack(Connection(a, b, geom.length(Sub(node1.position, node2.position))));
      work.Nodes := work.Nodes[a := work.Nodes[a].(connections := work.Nodes[a].connections + [k])];
      work.Nodes := work.Nodes[b := work.Nodes[b].(connections := work.Nodes[b].connections + [k])];
      forall j | 0 <= j < |nodepositions|
        ensures work.Nodes[j] == NodesUpTo(nodepositions, c, k + 1, nodeweight)[j]
      {
        assert work.Nodes[j].connections == before[j].connections + Hits(c[k], j, k);
      }
    }

    /** `copyview`: the target copy's nodes and connection reference become
        the source's. */
    static method CopyView(source: SoftRepresentation, target: SoftRepresentation)
      modifies target
      ensures target.Nodes == old(source.Nodes) && target.Connections == old(source.Connections)
      ensures source.Nodes == old(source.Nodes) && source.Connections == old(source.Connections)
    {
      target.Copy(source);
    }

    /** `copyback`: when the node counts match, copies each node's lock,
        mass and UI flags from source to target, one node at a time;
        position, velocity, force and adjacency stay as they were. */
    static method CopyBackNodes(source: SoftRepresentation, target: SoftRepresentation)
      requires source != target
      modifies target
      ensures target.Nodes == CopyBackSpec(old(source.Nodes), old(target.Nodes))
      ensures target.Connections == old(target.Connections)
    {
      if |source.Nodes| == |target.Nodes| {
        for i := 0 to |source.Nodes|
          invariant |target.Nodes| == |source.Nodes| && target.Connections == old(target.Connections)
          invariant forall j :: 0 <= j < i ==> target.Nodes[j] == CopyBackSpec(source.Nodes, old(target.Nodes))[j]
          invariant forall j :: i <= j < |target.Nodes| ==> target.Nodes[j] == old(target.Nodes[j])
        {
          var s := source.Nodes[i];
          target.Nodes := target.Nodes[i := target.Nodes[i].(islocked := s.islocked)];
          target.Nodes := target.Nodes[i := target.Nodes[i].(mass := s.mass)];
          target.Nodes := target.Nodes[i := target.Nodes[i].(imguiopen := s.imguiopen)];
          target.Nodes := target.Nodes[i := target.Nodes[i].(drawconnections := s.drawconnections)];
        }
      }
    }

    /** `CopyOver`, synchronously: publishes the work copy to the draw copy. */
    method CopyOver()
      requires Valid()
      modifies body
      ensures Valid()
      ensures body.Nodes == workbody.Nodes && body.Connections == workbody.Connections
      ensures workbody.Nodes == old(workbody.Nodes) && workbody.Connections == old(workbody.Connections)
    {
      CopyView(workbody, body);
    }

    /** `CopyBack`, synchronously: writes the UI-editable fields of the draw
        copy back into the work copy. */
    method CopyBack()
      requires Valid()
      modifies workbody
      ensures Valid()
      ensures workbody.Nodes == CopyBackSpec(old(body.Nodes), old(workbody.Nodes))
      ensures workbody.Connections == old(workbody.Connections)
    {
      CopyBackNodes(body, workbody);
      CopyBackFields(old(body.Nodes), old(workbody.Nodes));
    }
  }
}
