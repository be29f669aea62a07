/** The CPU benchmark's graph builders (benchmark.cpp): a pendulum chain,
    a square sheet of m*m nodes with its connection list, and the nodes
    the benchmarks lock. */
module Benchmark {
  import opened Vectors
  import opened Nodes
  import opened SoftBodies
  import opened Arithmetic

  // ---------------------------------------------------------------------
  // Pendulum

  /** The chain of k connections (i, i+1). */
  function Chain(k: nat): seq<(nat, nat)> {
    seq(k, i requires 0 <= i < k => (i, i + 1))
  }

  /** The connections of a k-link chain that touch node j: link j-1 (to the
      previous node) and link j (to the next node), where they exist. */
  function ChainAdjacency(k: nat, j: nat): seq<nat> {
    (if 1 <= j <= k then [j - 1] else []) + (if j < k then [j] else [])
  }

  /** In the graph a SoftBody builds from a chain, node j's adjacency list
      is the link before it followed by the link after it. */
  lemma ChainAdjacencyCorrect(k: nat, j: nat)
    ensures Adjacency(Chain(k), j) == ChainAdjacency(k, j)
  {
    ChainPrefixAdjacency(k, k, j);
  }

  /** ChainAdjacencyCorrect for the first `n` links of a longer chain. */
  lemma {:induction false} ChainPrefixAdjacency(k: nat, n: nat, j: nat)
    requires n <= k
    ensures AdjacencyUpTo(Chain(k), n, j) == ChainAdjacency(n, j)
    decreases n
  {
    if n > 0 {
      ChainPrefixAdjacency(k, n - 1, j);
      assert Chain(k)[n - 1] == (n - 1, n);
    }
  }

  /** `buildPendulum`: n nodes along `direction` (the unit vector at -45
      degrees scaled by size/n), joined by the n-1 links (i, i+1). */
  method BuildPendulum(n: nat, direction: Vec3) returns (connections: seq<(nat, nat)>, nodes: seq<Vec3>)
    requires n >= 1
    ensures |nodes| == n
    ensures forall i :: 0 <= i < n ==> nodes[i] == Scale(direction, i as real)
    ensures |connections| == n - 1
    ensures forall i :: 0 <= i < n - 1 ==> connections[i] == (i, i + 1)
    ensures PairsInRange(connections, |nodes|)
  {
    nodes := [];
    for i := 0 to n
      invariant |nodes| == i
      invariant forall k :: 0 <= k < i ==> nodes[k] == Scale(direction, k as real)
    {
      nodes := nodes + [Scale(direction, i as real)];
    }
    connections := [];
    for i := 0 to n - 1
      invariant connections == Chain(i)
    {
      connections := connections + [(i, i + 1)];
    }
  }

  // ---------------------------------------------------------------------
  // Sheet: node (x, z) of an m-wide sheet has index x*m + z

  /** The four connections of interior cell (x, z), from its index x*m + z:
      to the next node in its row, the two diagonals and the node in front. */
  function CellPairs(m: nat, x: nat, z: nat): (r: seq<(nat, nat)>)
    requires m >= 1
    ensures |r| == 4 && forall j :: 0 <= j < 4 ==> r[j].0 == x * m + z
  {
    var index := x * m + z;
    [(index, index + 1), (index, index + m - 1), (index, index + m + 1), (index, index + m)]
  }

  /** The connections of interior cells (x, 1) .. (x, z-1), in order. */
  function InteriorRow(m: nat, x: nat, z: nat): seq<(nat, nat)>
    requires m >= 1
  {
    if z <= 1 then [] else InteriorRow(m, x, z - 1) + CellPairs(m, x, z - 1)
  }

  /** The connections of interior rows 1 .. x-1, each of cells 1 .. m-2. */
  function Interior(m: nat, x: nat): seq<(nat, nat)>
    requires m >= 1
  {
    if x <= 1 then [] else Interior(m, x - 1) + InteriorRow(m, x - 1, m - 1)
  }

  /** Step i of the first edge loop: three connections from the first node
      of row i, two from its last node. */
  function EdgeRowStep(m: nat, i: nat): seq<(nat, nat)>
    requires m >= 1
  {
    MulLe(1, i + 1, m);
    var first := i * m;
    var last := (i + 1) * m - 1;
    [(first, first + 1), (first, first + m + 1), (first, first + m), (last, last + m), (last, last + m - 1)]
  }

  /** Steps 0 .. i-1 of the first edge loop. */
  function EdgeRows(m: nat, i: nat): seq<(nat, nat)>
    requires m >= 1
  {
    if i == 0 then [] else EdgeRows(m, i - 1) + EdgeRowStep(m, i - 1)
  }

  /** Step i of the second edge loop: four connections from node i of the
      first row, one from node i of the last row. */
  function EdgeColumnStep(m: nat, i: nat): seq<(nat, nat)>
    requires m >= 1
  {
    var last := i + m * (m - 1);
    [(i, i + 1), (i, i + m + 1), (i, i + m - 1), (i, i + m), (last, last + 1)]
  }

  /** Steps 1 .. i-1 of the second edge loop. */
  function EdgeColumns(m: nat, i: nat): seq<(nat, nat)>
    requires m >= 1
  {
    if i <= 1 then [] else EdgeColumns(m, i - 1) + EdgeColumnStep(m, i - 1)
  }

  /** The three connections appended last. */
  function Corners(m: nat): seq<(nat, nat)>
    requires m >= 1
  {
    [(m * (m - 1), m * (m - 1) + 1), (m - 1, m * 2 - 1), (m - 1, m * 2 - 2)]
  }

  /** The connection list of an m-wide sheet. */
  function Sheet(m: nat): seq<(nat, nat)>
    requires m >= 1
  {
    Interior(m, m - 1) + EdgeRows(m, m - 1) + EdgeColumns(m, m - 1) + Corners(m)
  }

  /** Number of connections of an m-wide sheet. */
  function SheetCount(m: nat): nat {
    if m >= 2 then 4 * ((m - 2) * (m - 2)) + 5 * (m - 1) + 5 * (m - 2) + 3 else 3
  }

  lemma {:induction false} InteriorRowLength(m: nat, x: nat, z: nat)
    requires m >= 1 && z >= 1
    ensures |InteriorRow(m, x, z)| == 4 * (z - 1)
    decreases z
  {
    if z > 1 {
      InteriorRowLength(m, x, z - 1);
    }
  }

  lemma {:induction false} InteriorLength(m: nat, x: nat)
    requires m >= 2 && x >= 1
    ensures |Interior(m, x)| == 4 * ((x - 1) * (m - 2))
    decreases x
  {
    if x > 1 {
      InteriorLength(m, x - 1);
      InteriorRowLength(m, x - 1, m - 1);
      assert (x - 1) * (m - 2) == (x - 2) * (m - 2) + (m - 2);
    }
  }

  lemma {:induction false} EdgeRowsLength(m: nat, i: nat)
    requires m >= 1
    ensures |EdgeRows(m, i)| == 5 * i
    decreases i
  {
    if i > 0 {
      EdgeRowsLength(m, i - 1);
    }
  }

  lemma {:induction false} EdgeColumnsLength(m: nat, i: nat)
    requires m >= 1 && i >= 1
    ensures |EdgeColumns(m, i)| == 5 * (i - 1)
    decreases i
  {
    if i > 1 {
      EdgeColumnsLength(m, i - 1);
    }
  }

  /** An m-wide sheet has 4(m-2)^2 + 5(m-1) + 5(m-2) + 3 connections for
      m >= 2: four per interior cell, five per step of each edge loop and
      three corners; a single node still gets the three corner connections. */
  lemma SheetLength(m: nat)
    requires m >= 1
    ensures |Sheet(m)| == SheetCount(m)
  {
    if m >= 2 {
      InteriorLength(m, m - 1);
      EdgeRowsLength(m, m - 1);
      EdgeColumnsLength(m, m - 1);
    }
  }

  /** Both ends of every pair in `s` are below `n`. */
  ghost predicate Below(s: seq<(nat, nat)>, n: nat) {
    forall p :: p in s ==> p.0 < n && p.1 < n
  }

  lemma CellInRange(m: nat, x: nat, z: nat)
    requires m >= 3 && 1 <= x <= m - 2 && 1 <= z <= m - 2
    ensures Below(CellPairs(m, x, z), m * m)
  {
    RowBounds(x + 1, z + 1, m);
    assert (x + 1) * m + (z + 1) == x * m + z + m + 1;
  }

  lemma {:induction false} InteriorRowInRange(m: nat, x: nat, z: nat)
    requires m >= 3 && 1 <= x <= m - 2 && z <= m - 1
    ensures Below(InteriorRow(m, x, z), m * m)
    decreases z
  {
    if z > 1 {
      InteriorRowInRange(m, x, z - 1);
      CellInRange(m, x, z - 1);
    }
  }

  lemma {:induction false} InteriorInRange(m: nat, x: nat)
    requires m >= 2 && x <= m - 1
    ensures Below(Interior(m, x), m * m)
    decreases x
  {
    if x > 1 {
      InteriorInRange(m, x - 1);
      InteriorRowInRange(m, x - 1, m - 1);
    }
  }

  lemma {:induction false} EdgeRowsInRange(m: nat, i: nat)
    requires m >= 2 && i <= m - 1
    ensures Below(EdgeRows(m, i), m * m)
    decreases i
  {
    if i > 0 {
      EdgeRowsInRange(m, i - 1);
      RowBounds(i, 1, m);
      RowBounds(i, m - 1, m);
      assert i * m == (i - 1) * m + m;
    }
  }

  lemma {:induction false} EdgeColumnsInRange(m: nat, i: nat)
    requires m >= 2 && i <= m - 1
    ensures Below(EdgeColumns(m, i), m * m)
    decreases i
  {
    if i > 1 {
      EdgeColumnsInRange(m, i - 1);
      RowBounds(1, i, m);
      RowBounds(m - 1, i, m);
      assert m * (m - 1) == (m - 1) * m;
    }
  }

  lemma CornersInRange(m: nat)
    requires m >= 2
    ensures Below(Corners(m), m * m)
  {
    RowBounds(m - 1, 1, m);
    RowBounds(1, m - 1, m);
    assert m * (m - 1) == (m - 1) * m;
  }

  lemma BelowConcat(a: seq<(nat, nat)>, b: seq<(nat, nat)>, n: nat)
    requires Below(a, n) && Below(b, n)
    ensures Below(a + b, n)
  {
  }

  /** For m >= 2 every connection of the sheet joins two of its m*m nodes,
      which the SoftBody constructor needs since it does not check. */
  lemma SheetInRange(m: nat)
    requires m >= 2
    ensures PairsInRange(Sheet(m), m * m)
  {
    SheetParts(m);
    BelowPairs(Sheet(m), m * m);
  }

  lemma SheetParts(m: nat)
    requires m >= 2
    ensures Below(Sheet(m), m * m)
  {
    var n := m * m;
    var a, b, c, d := Interior(m, m - 1), EdgeRows(m, m - 1), EdgeColumns(m, m - 1), Corners(m);
    assert Below(a, n) by { InteriorInRange(m, m - 1); }
    assert Below(b, n) by { EdgeRowsInRange(m, m - 1); }
    assert Below(c, n) by { EdgeColumnsInRange(m, m - 1); }
    assert Below(d, n) by { CornersInRange(m); }
    BelowConcat(a, b, n);
    BelowConcat(a + b, c, n);
    BelowConcat(a + b + c, d, n);
  }

  lemma BelowPairs(s: seq<(nat, nat)>, n: nat)
    requires Below(s, n)
    ensures PairsInRange(s, n)
  {
    forall k | 0 <= k < |s|
      ensures s[k].0 < n && s[k].1 < n
    {
      assert s[k] in s;
    }
  }

  /** A sheet one node wide still emits (0, 1) twice and (0, 0), naming a
      node 1 that does not exist. */
  lemma SingleNodeSheet()
    ensures Sheet(1) == [(0, 1), (0, 1), (0, 0)]
    ensures !PairsInRange(Sheet(1), 1 * 1)
  {
    assert Sheet(1)[0] == (0, 1);
  }

  lemma {:induction false} InteriorRowPrefix(m: nat, x: nat, z: nat, z': nat)
    requires m >= 1 && z <= z'
    ensures InteriorRow(m, x, z) <= InteriorRow(m, x, z')
    decreases z'
  {
    if z < z' && z' > 1 {
      InteriorRowPrefix(m, x, z, z' - 1);
    }
  }

  lemma {:induction false} InteriorPrefix(m: nat, x: nat, x': nat)
    requires m >= 1 && x <= x'
    ensures Interior(m, x) <= Interior(m, x')
    decreases x'
  {
    if x < x' && x' > 1 {
      InteriorPrefix(m, x, x' - 1);
    }
  }

  /** An index into a prefix of `u` is an index into `u`, with the same element. */
  lemma PrefixIndex(s: seq<(nat, nat)>, u: seq<(nat, nat)>, i: nat)
    requires s <= u && i < |s|
    ensures i < |u| && u[i] == s[i]
  {
  }

  /** Cell (x, z) sits at position 4(z-1) of its row. */
  lemma RowCellAt(m: nat, x: nat, z: nat, j: nat)
    requires m >= 3 && 1 <= z <= m - 2 && j < 4
    ensures 4 * (z - 1) + j < |InteriorRow(m, x, m - 1)|
    ensures InteriorRow(m, x, m - 1)[4 * (z - 1) + j] == CellPairs(m, x, z)[j]
  {
    var r := InteriorRow(m, x, z);
    var c := CellPairs(m, x, z);
    assert InteriorRow(m, x, z + 1) == r + c;
    InteriorRowLength(m, x, z);
    InteriorRowPrefix(m, x, z + 1, m - 1);
    PrefixIndex(r + c, InteriorRow(m, x, m - 1), |r| + j);
    assert (r + c)[|r| + j] == c[j];
  }

  /** Row x of the interior follows rows 1 .. x-1. */
  lemma InteriorRowAt(m: nat, x: nat, t: nat)
    requires m >= 3 && 1 <= x <= m - 2 && t < |InteriorRow(m, x, m - 1)|
    ensures |Interior(m, x)| + t < |Interior(m, m - 1)|
    ensures Interior(m, m - 1)[|Interior(m, x)| + t] == InteriorRow(m, x, m - 1)[t]
  {
    var a := Interior(m, x);
    var r := InteriorRow(m, x, m - 1);
    assert Interior(m, x + 1) == a + r;
    InteriorPrefix(m, x + 1, m - 1);
    PrefixIndex(a + r, Interior(m, m - 1), |a| + t);
    assert (a + r)[|a| + t] == r[t];
  }

  /** The sheet starts with the connections of the interior cells. */
  lemma SheetStartsWithInterior(m: nat, p: nat)
    requires m >= 1 && p < |Interior(m, m - 1)|
    ensures p < |Sheet(m)| && Sheet(m)[p] == Interior(m, m - 1)[p]
  {
    var a := Interior(m, m - 1);
    var ab := a + EdgeRows(m, m - 1);
    var abc := ab + EdgeColumns(m, m - 1);
    assert ab[p] == a[p];
    assert abc[p] == a[p];
    assert Sheet(m) == abc + Corners(m);
  }

  /** Interior cell (x, z) contributes its four connections right after
      the interior rows 1 .. x-1 (4(x-1)(m-2) connections, InteriorLength),
      at offset 4(z-1) within its own row; each of them starts at x*m + z
      (CellPairs). */
  lemma InteriorCellAt(m: nat, x: nat, z: nat, j: nat)
    requires m >= 3 && 1 <= x <= m - 2 && 1 <= z <= m - 2 && j < 4
    ensures |Interior(m, x)| + 4 * (z - 1) + j < |Sheet(m)|
    ensures Sheet(m)[|Interior(m, x)| + 4 * (z - 1) + j] == CellPairs(m, x, z)[j]
  {
    var t := 4 * (z - 1) + j;
    RowCellAt(m, x, z, j);
    InteriorRowAt(m, x, t);
    SheetStartsWithInterior(m, |Interior(m, x)| + t);
  }

  /** `buildSheet`: the m*m nodes of the y = 0 plane in x-major order, and
      the connection list of the sheet. */
  method BuildSheet(m: nat, size: real) returns (connections: seq<(nat, nat)>, nodes: seq<Vec3>)
    requires m >= 1
    ensures |nodes| == m * m
    ensures forall k :: 0 <= k < |nodes| ==> nodes[k] == SheetNode(m, size, k)
    ensures connections == Sheet(m) && |connections| == SheetCount(m)
    ensures m >= 2 ==> PairsInRange(connections, |nodes|)
  {
    nodes := SheetNodes(m, size);
    connections := SheetConnections(m);
    SheetFacts(m);
  }

  /** The connection loops of `buildSheet`, then the three corner connections. */
  method SheetConnections(m: nat) returns (connections: seq<(nat, nat)>)
    requires m >= 1
    ensures connections == Sheet(m)
  {
    connections := SheetInterior(m);
    connections := SheetEdgeRows(m, connections);
    connections := SheetEdgeColumns(m, connections);
    ghost var edges := connections;
    connections := connections + [(m * (m - 1), m * (m - 1) + 1)];
    connections := connections + [(m - 1, m * 2 - 1)];
    connections := connections + [(m - 1, m * 2 - 2)];
    assert connections == edges + Corners(m);
  }

  /** The count and the bounds of the sheet, for BuildSheet. */
  lemma SheetFacts(m: nat)
    requires m >= 1
    ensures |Sheet(m)| == SheetCount(m)
    ensures m >= 2 ==> PairsInRange(Sheet(m), m * m)
  {
    SheetLength(m);
    if m >= 2 {
      SheetInRange(m);
    }
  }

  /** The first edge loop of `buildSheet`. */
  method SheetEdgeRows(m: nat, before: seq<(nat, nat)>) returns (connections: seq<(nat, nat)>)
    requires m >= 1
    ensures connections == before + EdgeRows(m, m - 1)
  {
    connections := before;
    var i := 0;
    while i < m - 1
      invariant 0 <= i <= m - 1
      invariant connections == before + EdgeRows(m, i)
    {
      var index := i * m;
      connections := connections + [(index, index + 1)];
      connections := connections + [(index, index + m + 1)];
      connections := connections + [(index, index + m)];
      MulLe(1, i + 1, m);
      index := (i + 1) * m - 1;
      connections := connections + [(index, index + m)];
      connections := connections + [(index, index + m - 1)];
      i := i + 1;
    }
  }

  /** The second edge loop of `buildSheet`. */
  method SheetEdgeColumns(m: nat, before: seq<(nat, nat)>) returns (connections: seq<(nat, nat)>)
    requires m >= 1
    ensures connections == before + EdgeColumns(m, m - 1)
  {
    connections := before;
    var i := 1;
    while i < m - 1
      invariant 1 <= i <= (if m >= 2 then m - 1 else 1)
      invariant connections == before + EdgeColumns(m, i)
    {
      var index := i;
      connections := connections + [(index, index + 1)];
      connections := connections + [(index, index + m + 1)];
      connections := connections + [(index, index + m - 1)];
      connections := connections + [(index, index + m)];
      index := i + m * (m - 1);
      connections := connections + [(index, index + 1)];
      i := i + 1;
    }
  }

  /** The interior loop of `buildSheet`. */
  method SheetInterior(m: nat) returns (connections: seq<(nat, nat)>)
    requires m >= 1
    ensures connections == Interior(m, m - 1)
  {
    connections := [];
    var x := 1;
    while x < m - 1
      invariant 1 <= x <= (if m >= 2 then m - 1 else 1)
      invariant connections == Interior(m, x)
    {
      var z := 1;
      while z < m - 1
        invariant 1 <= z <= m - 1
        invariant connections == Interior(m, x) + InteriorRow(m, x, z)
      {
        connections := SheetCell(connections, m, x, z);
        z := z + 1;
      }
      x := x + 1;
    }
  }

  /** One pass of the inner interior loop: the four connections of cell
      (x, z), appended in the order `buildSheet` writes them. */
  method SheetCell(connections: seq<(nat, nat)>, m: nat, x: nat, z: nat) returns (r: seq<(nat, nat)>)
    requires m >= 1
    ensures r == connections + CellPairs(m, x, z)
  {
    var index := x * m + z;
    r := connections + [(index, index + 1)];
    r := r + [(index, index + m - 1)];
    r := r + [(index, index + m + 1)];
    r := r + [(index, index + m)];
  }

  /** Node k of the sheet: at (x, 0, z) * size/m, where k = x*m + z. */
  function SheetNode(m: nat, size: real, k: nat): Vec3
    requires m >= 1
  {
    Vec3((k / m) as real * (size / m as real), 0.0, (k % m) as real * (size / m as real))
  }

  /** The node loop of `buildSheet`. */
  method SheetNodes(m: nat, size: real) returns (nodes: seq<Vec3>)
    requires m >= 1
    ensures |nodes| == m * m
    ensures forall k :: 0 <= k < |nodes| ==> nodes[k] == SheetNode(m, size, k)
  {
    nodes := [];
    for x := 0 to m
      invariant |nodes| == x * m
      invariant forall k :: 0 <= k < |nodes| ==> nodes[k] == SheetNode(m, size, k)
    {
      nodes := SheetNodeRow(m, size, x, nodes);
      assert (x + 1) * m == x * m + m;
    }
  }

  /** One pass of the inner node loop: the m nodes of row x. */
  method SheetNodeRow(m: nat, size: real, x: nat, before: seq<Vec3>) returns (nodes: seq<Vec3>)
    requires m >= 1 && |before| == x * m
    requires forall k :: 0 <= k < |before| ==> before[k] == SheetNode(m, size, k)
    ensures |nodes| == x * m + m
    ensures forall k :: 0 <= k < |nodes| ==> nodes[k] == SheetNode(m, size, k)
  {
    var fraction := size / m as real;
    nodes := before;
    for z := 0 to m
      invariant |nodes| == x * m + z
      invariant forall k :: 0 <= k < |nodes| ==> nodes[k] == SheetNode(m, size, k)
    {
      DivModUnique(x * m + z, m, x, z);
      nodes := nodes + [Vec3(x as real * fraction, 0.0, z as real * fraction)];
    }
  }

  // ---------------------------------------------------------------------
  // Locked nodes

  /** Index i is one of the four corners of an m-wide sheet. */
  predicate IsCorner(i: int, m: nat) {
    i == 0 || i == m - 1 || i == (m - 1) * m || i == m * m - 1
  }

  /** The corners are exactly the nodes whose row and column are both
      first or last. */
  lemma CornersOnBoundary(i: int, m: nat)
    requires m >= 1 && 0 <= i < m * m
    ensures IsCorner(i, m) <==> (i / m == 0 || i / m == m - 1) && (i % m == 0 || i % m == m - 1)
  {
    DivModUnique(i, m, i / m, i % m);
    if i == 0 { DivModUnique(i, m, 0, 0); }
    if i == m - 1 { DivModUnique(i, m, 0, m - 1); }
    if i == (m - 1) * m { DivModUnique(i, m, m - 1, 0); }
    if i == m * m - 1 {
      assert m * m - 1 == (m - 1) * m + (m - 1);
      DivModUnique(i, m, m - 1, m - 1);
    }
    if i / m == m - 1 && i % m == m - 1 {
      assert i == (m - 1) * m + (m - 1);
    }
  }

  /** The locks of `benchmarkSheet`: the four corner nodes of the sheet;
      nothing else changes. */
  method LockCorners(body: SoftBody, m: nat)
    requires m >= 1 && |body.workbody.Nodes| == m * m
    modifies body.workbody
    ensures body.workbody.Connections == old(body.workbody.Connections)
    ensures |body.workbody.Nodes| == m * m
    ensures forall i :: 0 <= i < m * m ==>
      body.workbody.Nodes[i] == old(body.workbody.Nodes[i]).(islocked := old(body.workbody.Nodes[i].islocked) || IsCorner(i, m))
  {
    var w := body.workbody;
    ghost var n0 := w.Nodes;
    MulLe(1, m, m);
    MulLe(m - 1, m, m);
    var lastRow, last := (m - 1) * m, m * m - 1;
    w.Nodes := w.Nodes[0 := w.Nodes[0].(islocked := true)];
    w.Nodes := w.Nodes[m - 1 := w.Nodes[m - 1].(islocked := true)];
    w.Nodes := w.Nodes[lastRow := w.Nodes[lastRow].(islocked := true)];
    w.Nodes := w.Nodes[last := w.Nodes[last].(islocked := true)];
    assert forall i :: 0 <= i < m * m ==>
      w.Nodes[i] == n0[i].(islocked := n0[i].islocked || i == 0 || i == m - 1 || i == lastRow || i == last);
  }
}
