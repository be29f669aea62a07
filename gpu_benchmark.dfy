/** The GPU benchmark's graph builders (src/benchmark.cpp). A GPU node
    carries its adjacency in 30 fixed slots, -1 marking a free slot. */
module GpuBenchmark {
  import opened Vectors
  import opened SoftBodies
  import opened Benchmark
  import opened Arithmetic

  /** Number of adjacency slots of a GPU node. */
  const SlotCount := 30

  /** Marks a free adjacency slot. */
  const FreeSlot := -1

  /** The GPU node layout. The fourth (w) component of the source's
      four-vectors is always zero here and is not modelled. */
  datatype GpuNode = GpuNode(pos: Vec3, velocity: Vec3, mass: real, connections: seq<int>, locked: bool)

  /** The slots of a node whose adjacency list is `s`: the list, then free
      slots up to 30. */
  function Padded(s: seq<int>): (r: seq<int>)
    requires |s| <= SlotCount
    ensures |r| == SlotCount && r[..|s|] == s
    ensures forall k :: |s| <= k < SlotCount ==> r[k] == FreeSlot
  {
    s + seq(SlotCount - |s|, _ => FreeSlot)
  }

  /** The slot scan: the first free slot. The source's scan has no upper
      bound, so a free slot must exist. */
  method FirstFree(slots: seq<int>) returns (head: nat)
    requires FreeSlot in slots
    ensures head < |slots| && slots[head] == FreeSlot
    ensures forall k :: 0 <= k < head ==> slots[k] != FreeSlot
  {
    head := 0;
    while slots[head] != FreeSlot
      invariant head < |slots| && FreeSlot in slots[head..]
      invariant forall k :: 0 <= k < head ==> slots[k] != FreeSlot
      decreases |slots| - head
    {
      assert slots[head..] == [slots[head]] + slots[head + 1..];
      head := head + 1;
    }
  }

  /** In the slots of a list without free markers, the first free slot is
      just past the list, and writing there extends the list. */
  lemma PaddedPush(s: seq<int>, v: int, head: nat)
    requires |s| < SlotCount && forall k :: 0 <= k < |s| ==> s[k] != FreeSlot
    requires head < SlotCount && Padded(s)[head] == FreeSlot
    requires forall k :: 0 <= k < head ==> Padded(s)[k] != FreeSlot
    ensures head == |s|
    ensures Padded(s)[head := v] == Padded(s + [v])
  {
    assert Padded(s)[|s|] == FreeSlot;
    forall k | 0 <= k < |s|
      ensures Padded(s)[k] == s[k]
    {
      assert Padded(s)[..|s|][k] == s[k];
    }
    assert Padded(s)[head := v] == Padded(s + [v]);
  }

  /** A list shorter than 30 leaves a free slot. */
  lemma PaddedHasFree(s: seq<int>)
    requires |s| < SlotCount
    ensures FreeSlot in Padded(s)
  {
    assert Padded(s)[|s|] == FreeSlot;
  }

  /** `buildPendulum`: n nodes along `direction` with mass `massFraction`,
      all slots free; then the links (i, i+1), each recorded in the first
      free slot of both its nodes. Afterwards node 0 holds [0], node i
      holds [i-1, i] and the last node [n-2]: by ChainAdjacencyCorrect, the
      adjacency list the CPU SoftBody builds for the same chain. */
  method BuildPendulum(n: nat, direction: Vec3, massFraction: real)
    returns (connections: seq<(nat, nat)>, nodes: seq<GpuNode>)
    requires n >= 1
    ensures |nodes| == n
    ensures forall i :: 0 <= i < n ==>
      nodes[i].pos == Scale(direction, i as real) && nodes[i].velocity == Zero &&
      nodes[i].mass == massFraction && !nodes[i].locked
    ensures forall i :: 0 <= i < n ==> nodes[i].connections == Padded(ChainAdjacency(n - 1, i))
    ensures |connections| == n - 1
    ensures forall i :: 0 <= i < n - 1 ==> connections[i] == (i, i + 1)
  {
    nodes := [];
    for i := 0 to n
      invariant |nodes| == i
      invariant forall k :: 0 <= k < i ==>
        nodes[k] == GpuNode(Scale(direction, k as real), Zero, massFraction, Padded([]), false)
    {
      var slots := FreeSlots();
      nodes := nodes + [GpuNode(Scale(direction, i as real), Zero, massFraction, slots, false)];
    }
    assert forall j :: 0 <= j < n ==> ChainAdjacency(0, j) == [];
    connections := [];
    for i := 0 to n - 1
      invariant |connections| == i
      invariant forall k :: 0 <= k < i ==> connections[k] == (k, k + 1)
      invariant ChainNodes(nodes, n, i, direction, massFraction)
    {
      connections := connections + [(i, i + 1)];
      nodes := RecordLink(nodes, n, i, direction, massFraction);
    }
  }

  /** The nodes of an n-node pendulum once links 0 .. k-1 are recorded. */
  ghost predicate ChainNodes(nodes: seq<GpuNode>, n: nat, k: nat, direction: Vec3, massFraction: real) {
    |nodes| == n &&
    forall j :: 0 <= j < n ==>
      nodes[j] == GpuNode(Scale(direction, j as real), Zero, massFraction, Padded(ChainAdjacency(k, j)), false)
  }

  /** The slot updates for link i = (i, i+1): its index goes into the first
      free slot of node i and then of node i+1. */
  method RecordLink(before: seq<GpuNode>, n: nat, i: nat, direction: Vec3, massFraction: real)
    returns (nodes: seq<GpuNode>)
    requires i + 1 < n && ChainNodes(before, n, i, direction, massFraction)
    ensures ChainNodes(nodes, n, i + 1, direction, massFraction)
  {
    var written;
    nodes, written := RecordSlot(before, i, ChainAdjacency(i, i), i);
    if written {
      nodes, written := RecordSlot(nodes, i + 1, ChainAdjacency(i, i + 1), i);
    }
    assert ChainAdjacency(i + 1, i) == ChainAdjacency(i, i) + [i];
    assert ChainAdjacency(i + 1, i + 1) == ChainAdjacency(i, i + 1) + [i];
    forall j | 0 <= j < n && j != i && j != i + 1
      ensures ChainAdjacency(i + 1, j) == ChainAdjacency(i, j)
    {
    }
  }

  /** One slot scan and write: connection `v` goes into the first free slot
      of node j, whose slots hold the list `s`. `written` is false only when
      the node is full, which a free slot rules out. */
  method RecordSlot(before: seq<GpuNode>, j: nat, s: seq<int>, v: int) returns (nodes: seq<GpuNode>, written: bool)
    requires |s| < SlotCount && forall k :: 0 <= k < |s| ==> s[k] != FreeSlot
    requires j < |before| && before[j].connections == Padded(s)
    ensures written && nodes == before[j := before[j].(connections := Padded(s + [v]))]
  {
    nodes := before;
    PaddedHasFree(s);
    var head := FirstFree(nodes[j].connections);
    PaddedPush(s, v, head);
    if head >= SlotCount {
      return nodes, false;
    }
    nodes := nodes[j := nodes[j].(connections := nodes[j].connections[head := v])];
    written := true;
  }

  /** The slot reset of a new node: every one of its 30 slots set to -1. */
  method FreeSlots() returns (slots: seq<int>)
    ensures slots == Padded([])
  {
    var a := new int[SlotCount];
    for s := 0 to SlotCount
      invariant forall k :: 0 <= k < s ==> a[k] == FreeSlot
    {
      a[s] := FreeSlot;
    }
    slots := a[..];
  }

  // ---------------------------------------------------------------------
  // Sheet (connection list only)

  /** Step i of the first edge loop: three connections from the first node
      of row i. */
  function GpuEdgeRowStep(m: nat, i: nat): seq<(nat, nat)> {
    var index := i * m;
    [(index, index + 1), (index, index + m + 1), (index, index + m)]
  }

  /** Steps 0 .. i-1 of the first edge loop. */
  function GpuEdgeRows(m: nat, i: nat): seq<(nat, nat)> {
    if i == 0 then [] else GpuEdgeRows(m, i - 1) + GpuEdgeRowStep(m, i - 1)
  }

  /** Step i of the second edge loop: four connections from node i of the
      first row. */
  function GpuEdgeColumnStep(m: nat, i: nat): seq<(nat, nat)>
    requires m >= 1
  {
    [(i, i + 1), (i, i + m + 1), (i, i + m - 1), (i, i + m)]
  }

  /** Steps 1 .. i-1 of the second edge loop. */
  function GpuEdgeColumns(m: nat, i: nat): seq<(nat, nat)>
    requires m >= 1
  {
    if i <= 1 then [] else GpuEdgeColumns(m, i - 1) + GpuEdgeColumnStep(m, i - 1)
  }

  /** The index pairs of the GPU sheet: the same interior cells and corner
      connections as the CPU sheet, with shorter edge loops. */
  function GpuSheet(m: nat): seq<(nat, nat)>
    requires m >= 1
  {
    Interior(m, m - 1) + GpuEdgeRows(m, m - 1) + GpuEdgeColumns(m, m - 1) + Corners(m)
  }

  /** Number of connections of the GPU sheet. */
  function GpuSheetCount(m: nat): nat {
    if m >= 2 then 4 * ((m - 2) * (m - 2)) + 3 * (m - 1) + 4 * (m - 2) + 3 else 3
  }

  lemma {:induction false} GpuEdgeRowsLength(m: nat, i: nat)
    ensures |GpuEdgeRows(m, i)| == 3 * i
    decreases i
  {
    if i > 0 {
      GpuEdgeRowsLength(m, i - 1);
    }
  }

  lemma {:induction false} GpuEdgeColumnsLength(m: nat, i: nat)
    requires m >= 1 && i >= 1
    ensures |GpuEdgeColumns(m, i)| == 4 * (i - 1)
    decreases i
  {
    if i > 1 {
      GpuEdgeColumnsLength(m, i - 1);
    }
  }

  /** The GPU sheet has 4(m-2)^2 + 3(m-1) + 4(m-2) + 3 connections for m >= 2. */
  lemma GpuSheetLength(m: nat)
    requires m >= 1
    ensures |GpuSheet(m)| == GpuSheetCount(m)
  {
    if m >= 2 {
      InteriorLength(m, m - 1);
      GpuEdgeRowsLength(m, m - 1);
      GpuEdgeColumnsLength(m, m - 1);
    }
  }

  lemma {:induction false} GpuEdgeRowsInRange(m: nat, i: nat)
    requires m >= 2 && i <= m - 1
    ensures Below(GpuEdgeRows(m, i), m * m)
    decreases i
  {
    if i > 0 {
      GpuEdgeRowsInRange(m, i - 1);
      RowBounds(i, 1, m);
      assert i * m == (i - 1) * m + m;
    }
  }

  lemma {:induction false} GpuEdgeColumnsInRange(m: nat, i: nat)
    requires m >= 2 && i <= m - 1
    ensures Below(GpuEdgeColumns(m, i), m * m)
    decreases i
  {
    if i > 1 {
      GpuEdgeColumnsInRange(m, i - 1);
      RowBounds(1, i, m);
    }
  }

  /** For m >= 2 every index of the GPU sheet is below m*m. */
  lemma GpuSheetInRange(m: nat)
    requires m >= 2
    ensures PairsInRange(GpuSheet(m), m * m)
  {
    var n := m * m;
    var a, b, c, d := Interior(m, m - 1), GpuEdgeRows(m, m - 1), GpuEdgeColumns(m, m - 1), Corners(m);
    assert Below(a, n) by { InteriorInRange(m, m - 1); }
    assert Below(b, n) by { GpuEdgeRowsInRange(m, m - 1); }
    assert Below(c, n) by { GpuEdgeColumnsInRange(m, m - 1); }
    assert Below(d, n) by { CornersInRange(m); }
    BelowConcat(a, b, n);
    BelowConcat(a + b, c, n);
    BelowConcat(a + b + c, d, n);
    BelowPairs(GpuSheet(m), n);
  }

  /** `buildSheet`'s connection list: the interior cells emitted directly,
      then the edge and corner pairs gathered in `cons` and emitted in
      order. */
  method BuildSheet(m: nat) returns (connections: seq<(nat, nat)>)
    requires m >= 1
    ensures connections == GpuSheet(m) && |connections| == GpuSheetCount(m)
    ensures m >= 2 ==> PairsInRange(connections, m * m)
  {
    var interior := GpuInterior(m);
    var cons := GpuEdgePairs(m);
    connections := EmitPairs(interior, cons);
    Regroup(Interior(m, m - 1), GpuEdgeRows(m, m - 1), GpuEdgeColumns(m, m - 1), Corners(m));
    GpuSheetFacts(m);
  }

  /** The final loop of `buildSheet`: each gathered pair becomes a
      connection, after the interior ones. */
  method EmitPairs(interior: seq<(nat, nat)>, cons: seq<(nat, nat)>) returns (connections: seq<(nat, nat)>)
    ensures connections == interior + cons
  {
    connections := interior;
    for k := 0 to |cons|
      invariant connections == interior + cons[..k]
    {
      assert cons[..k + 1] == cons[..k] + [cons[k]];
      connections := connections + [(cons[k].0, cons[k].1)];
    }
    assert cons[..|cons|] == cons;
  }

  /** The count and the bounds of the GPU sheet together. */
  lemma GpuSheetFacts(m: nat)
    requires m >= 1
    ensures |GpuSheet(m)| == GpuSheetCount(m)
    ensures m >= 2 ==> PairsInRange(GpuSheet(m), m * m)
  {
    GpuSheetLength(m);
    if m >= 2 {
      GpuSheetInRange(m);
    }
  }

  lemma Regroup(a: seq<(nat, nat)>, b: seq<(nat, nat)>, c: seq<(nat, nat)>, d: seq<(nat, nat)>)
    ensures a + (b + c + d) == a + b + c + d
  {
  }

  /** The interior loop of the GPU `buildSheet`, four connections per cell
      taken from the array `cons`. */
  method GpuInterior(m: nat) returns (connections: seq<(nat, nat)>)
    requires m >= 1
    ensures connections == Interior(m, m - 1)
  {
    connections := [];
    var x := 1;
    while x < m - 1
      invariant 1 <= x <= (if m >= 2 then m - 1 else 1)
      invariant connections == Interior(m, x)
    {
      var z := 1;
      while z < m - 1
        invariant 1 <= z <= m - 1
        invariant connections == Interior(m, x) + InteriorRow(m, x, z)
      {
        connections := AppendCell(connections, m, x, z);
        assert Interior(m, x) + InteriorRow(m, x, z + 1) ==
          Interior(m, x) + InteriorRow(m, x, z) + CellPairs(m, x, z);
        z := z + 1;
      }
      x := x + 1;
    }
  }

  /** One interior cell of the GPU `buildSheet`: the four neighbour offsets
      stored in `cons`, each appended as a pair with the cell's own index. */
  method AppendCell(connections: seq<(nat, nat)>, m: nat, x: nat, z: nat) returns (r: seq<(nat, nat)>)
    requires m >= 1
    ensures r == connections + CellPairs(m, x, z)
  {
    r := connections;
    var index := x * m + z;
    var cons := [index + 1, index + m - 1, index + m + 1, index + m];
    for c := 0 to 4
      invariant r == connections + CellPairs(m, x, z)[..c]
    {
      assert CellPairs(m, x, z)[..c + 1] == CellPairs(m, x, z)[..c] + [(index, cons[c])];
      r := r + [(index, cons[c])];
    }
  }

  /** The edge and corner pairs gathered in `cons`. */
  method GpuEdgePairs(m: nat) returns (cons: seq<(nat, nat)>)
    requires m >= 1
    ensures cons == GpuEdgeRows(m, m - 1) + GpuEdgeColumns(m, m - 1) + Corners(m)
  {
    cons := GpuRowPairs(m);
    cons := GpuColumnPairs(m, cons);
    ghost var edges := cons;
    MulNonneg(m, m - 1);
    cons := cons + [(m * (m - 1), m * (m - 1) + 1)];
    cons := cons + [(m - 1, m * 2 - 1)];
    cons := cons + [(m - 1, m * 2 - 2)];
    assert cons == edges + Corners(m);
  }

  /** The first edge loop of the GPU `buildSheet`: three connections from
      the first node of each row but the last. */
  method GpuRowPairs(m: nat) returns (cons: seq<(nat, nat)>)
    requires m >= 1
    ensures cons == GpuEdgeRows(m, m - 1)
  {
    cons := [];
    var i := 0;
    while i < m - 1
      invariant 0 <= i <= m - 1
      invariant cons == GpuEdgeRows(m, i)
    {
      var index := i * m;
      cons := cons + [(index, index + 1)];
      cons := cons + [(index, index + m + 1)];
      cons := cons + [(index, index + m)];
      i := i + 1;
    }
  }

  /** The second edge loop of the GPU `buildSheet`: four connections from
      each inner node of the first row, appended to `prefix`. */
  method GpuColumnPairs(m: nat, prefix: seq<(nat, nat)>) returns (cons: seq<(nat, nat)>)
    requires m >= 1
    ensures cons == prefix + GpuEdgeColumns(m, m - 1)
  {
    cons := prefix;
    var i := 1;
    while i < m - 1
      invariant 1 <= i <= (if m >= 2 then m - 1 else 1)
      invariant cons == prefix + GpuEdgeColumns(m, i)
    {
      var index := i;
      cons := cons + [(index, index + 1)];
      cons := cons + [(index, index + m + 1)];
      cons := cons + [(index, index + m - 1)];
      cons := cons + [(index, index + m)];
      i := i + 1;
    }
  }
}
