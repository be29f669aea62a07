/** PhysicsHandler.cpp: the registry of soft bodies, the force and tick
    loops, one iteration of the physics loop with its pause counter, the
    pause buttons and the drawing of connections. Locks, atomics and the
    physics thread are replaced by sequential calls. */
module PhysicsHandlers {
  import opened Vectors
  import opened Nodes
  import opened SoftBodies
  import opened Physics
  import opened DrawList
  import opened Drawing

  // ---------------------------------------------------------------------
  // The pause counter

  /** The counter after one iteration of the physics loop: a positive
      counter is decremented, zero and negative ones are left alone. */
  function PauseAfter(pause: int): int {
    if pause > 0 then pause - 1 else pause
  }

  /** How many of `k` consecutive iterations tick, starting from `pause`:
      an iteration ticks exactly when the counter is non-zero. */
  function TicksIn(pause: int, k: nat): nat
    decreases k
  {
    if k == 0 then 0 else (if pause != 0 then 1 else 0) + TicksIn(PauseAfter(pause), k - 1)
  }

  /** The counter after `k` iterations. */
  function PauseAfterRun(pause: int, k: nat): int
    decreases k
  {
    if k == 0 then pause else PauseAfterRun(PauseAfter(pause), k - 1)
  }

  /** Over `k` iterations: a zero counter never ticks, a positive counter
      `p` ticks `min(p, k)` times and counts down to `max(p - k, 0)`, and a
      negative counter ticks every time and stays as it is. */
  lemma {:induction false} PauseCounting(pause: int, k: nat)
    ensures TicksIn(pause, k) == if pause == 0 then 0 else if pause < 0 || k <= pause then k else pause
    ensures PauseAfterRun(pause, k) == if pause > 0 then (if k <= pause then pause - k else 0) else pause
    decreases k
  {
    if k > 0 {
      PauseCounting(PauseAfter(pause), k - 1);
    }
  }

  /** "Pause/Unpause": a stopped simulation runs without limit, a running
      or counting one stops. */
  function Toggled(pause: int): (r: int)
    ensures r == 0 <==> pause != 0
    ensures r < 0 <==> pause == 0
  {
    if pause != 0 then 0 else -1
  }

  /** "Single tick" sets the counter to 1, which runs exactly one tick and
      then stops; pressing "Pause/Unpause" on a stopped simulation makes it
      tick on every iteration. */
  lemma ButtonsEffect(k: nat)
    ensures k >= 1 ==> TicksIn(1, k) == 1 && PauseAfterRun(1, k) == 0
    ensures TicksIn(Toggled(0), k) == k && PauseAfterRun(Toggled(0), k) == -1
  {
    PauseCounting(1, k);
    PauseCounting(-1, k);
  }

  // ---------------------------------------------------------------------
  // Bodies

  /** No representation object is shared between two registered bodies. */
  ghost predicate DistinctCopies(bs: seq<SoftBody>) {
    forall i, j :: 0 <= i < |bs| && 0 <= j < |bs| && i != j ==>
      bs[i].workbody != bs[j].workbody && bs[i].workbody != bs[j].body && bs[i].body != bs[j].body
  }

  /** A body the physics loop can step: valid, and every unlocked node has
      a mass to divide by. */
  ghost predicate Ready(b: SoftBody)
    reads b.workbody, b.workbody.Connections, b.body, b.body.Connections
  {
    b.Valid() && UnlockedMassesNonZero(b.workbody.Nodes)
  }

  /** The segments DrawBodies queues for one body's draw copy. */
  function SegmentsFor(nodes: seq<NodeValue>, cs: seq<Connection>, ids: seq<nat>): seq<Line>
    requires ConnectionsInRange(cs, |nodes|)
    requires forall k :: 0 <= k < |ids| ==> ids[k] < |cs|
  {
    seq(|ids|, k requires 0 <= k < |ids| =>
      (nodes[cs[ids[k]].node1].position, nodes[cs[ids[k]].node2].position))
  }

  /** Every body's draw copy has a consistent graph to draw from. */
  ghost predicate DrawCopiesInRange(bs: seq<SoftBody>)
    reads set b | b in bs :: b.body, set b | b in bs :: b.body.Connections
  {
    forall i :: 0 <= i < |bs| ==>
      ConnectionsInRange(bs[i].body.Connections.items, |bs[i].body.Nodes|) &&
      AdjacencyInRange(bs[i].body.Nodes, |bs[i].body.Connections.items|)
  }

  /** The segments DrawBodies queues for the first `n` bodies: each body's
      draw-copy segments, for the de-duplicated indices its flagged nodes
      list, body by body. */
  ghost function SegmentsOfBodies(bs: seq<SoftBody>, n: nat): seq<Line>
    requires n <= |bs| && DrawCopiesInRange(bs)
    reads set b | b in bs :: b.body, set b | b in bs :: b.body.Connections
  {
    if n == 0 then []
    else
      var last := bs[n - 1].body;
      DrawIdsInRange(last.Nodes, |last.Connections.items|);
      SegmentsOfBodies(bs, n - 1) + SegmentsFor(last.Nodes, last.Connections.items, DrawIds(last.Nodes))
  }

  /** The connection indices a node vector lists are those of existing connections. */
  lemma DrawIdsInRange(nodes: seq<NodeValue>, m: nat)
    requires AdjacencyInRange(nodes, m)
    ensures forall k :: 0 <= k < |DrawIds(nodes)| ==> DrawIds(nodes)[k] < m
  {
    DrawIdsCorrect(nodes);
    forall k | 0 <= k < |DrawIds(nodes)|
      ensures DrawIds(nodes)[k] < m
    {
      var x := DrawIds(nodes)[k];
      assert x in DrawIds(nodes);
      var j :| 0 <= j < |nodes| && nodes[j].drawconnections && x in nodes[j].connections;
      var a :| 0 <= a < |nodes[j].connections| && nodes[j].connections[a] == x;
    }
  }

  class PhysicsHandler {
    /** `m_Bodies` */
    var bodies: seq<SoftBody>
    /** `m_DrawScales` */
    var drawScales: seq<real>
    /** `m_Collapsed` */
    var collapsed: seq<int>
    /** 0 stops the simulation, a positive value counts remaining ticks,
        a negative value runs without limit. */
    var pause: int
    /** The tick size. */
    var TS: real
    /** Simulated seconds. */
    var timePassed: real

    /** The three per-body vectors stay parallel. */
    ghost predicate Valid()
      reads this
    {
      |bodies| == |drawScales| == |collapsed|
    }

    constructor ()
      ensures Valid() && bodies == [] && pause == 0 && TS == 0.0001 && timePassed == 0.0
    {
      bodies := [];
      drawScales := [];
      collapsed := [];
      pause := 0;
      TS := 0.0001;
      timePassed := 0.0;
    }

    /** `AddSoftBody`: registers a body with draw scale 0.01 and the
        collapsed flag `true`, stored as 1. */
    method AddSoftBody(body: SoftBody)
      requires Valid()
      modifies this
      ensures Valid()
      ensures bodies == old(bodies) + [body]
      ensures drawScales == old(drawScales) + [0.01] && collapsed == old(collapsed) + [1]
      ensures pause == old(pause) && TS == old(TS) && timePassed == old(timePassed)
    {
      bodies := bodies + [body];
      drawScales := drawScales + [0.01];
      collapsed := collapsed + [1];
    }

    /** The "Pause/Unpause" button. */
    method PressPauseUnpause()
      modifies this
      ensures pause == Toggled(old(pause))
      ensures bodies == old(bodies) && drawScales == old(drawScales) && collapsed == old(collapsed)
      ensures TS == old(TS) && timePassed == old(timePassed)
    {
      pause := if pause != 0 then 0 else -1;
    }

    /** The "Single tick" button. */
    method PressSingleTick()
      modifies this
      ensures pause == 1
      ensures bodies == old(bodies) && drawScales == old(drawScales) && collapsed == old(collapsed)
      ensures TS == old(TS) && timePassed == old(timePassed)
    {
      pause := 1;
    }

    /** `CalculateForces(body, source)`: resets every node's force to its
        drag and weight, then adds each connection's force to its first
        node and the opposite force to its second. */
    static method CalculateForces(body: SoftBody, source: SoftRepresentation)
      requires ConnectionsInRange(source.Connections.items, |source.Nodes|)
      modifies source
      ensures source.Connections == old(source.Connections)
      ensures source.Nodes == CalculateForcesSpec(old(source.Nodes), source.Connections.items, body.drag, body.ForceCalculator)
    {
      ResetNodeForces(source, body.drag);
      AccumulateSprings(source, body.ForceCalculator);
    }

    /** The first loop of CalculateForces: every node's force becomes its
        drag, `-d` times its velocity, plus its weight. */
    static method ResetNodeForces(source: SoftRepresentation, d: real)
      modifies source
      ensures source.Connections == old(source.Connections)
      ensures source.Nodes == ResetForces(old(source.Nodes), d)
    {
      for i := 0 to |source.Nodes|
        invariant |source.Nodes| == |old(source.Nodes)| && source.Connections == old(source.Connections)
        invariant forall j :: 0 <= j < i ==> source.Nodes[j] == ResetForces(old(source.Nodes), d)[j]
        invariant forall j :: i <= j < |source.Nodes| ==> source.Nodes[j] == old(source.Nodes[j])
      {
        var node := source.Nodes[i];
        source.Nodes := source.Nodes[i := node.(force := Scale(Scale(node.velocity, d), -1.0))];
        source.Nodes := source.Nodes[i := source.Nodes[i].(force := Add(source.Nodes[i].force, Vec3(0.0, -9.8 * node.mass, 0.0)))];
      }
    }

    /** The second loop of CalculateForces: each connection in turn adds
        the law's force to its first node and the opposite to its second. */
    static method AccumulateSprings(source: SoftRepresentation, law: ForceLaw)
      requires ConnectionsInRange(source.Connections.items, |source.Nodes|)
      modifies source
      ensures source.Connections == old(source.Connections)
      ensures source.Nodes == ApplySprings(old(source.Nodes), source.Connections.items, law)
    {
      var cs := source.Connections.items;
      for k := 0 to |cs|
        invariant source.Connections == old(source.Connections)
        invariant ConnectionsInRange(cs[..k], |source.Nodes|)
        invariant source.Nodes == ApplySprings(old(source.Nodes), cs[..k], law)
      {
        assert cs[..k + 1][..k] == cs[..k];
        var c := cs[k];
        var f := law(c, source.Nodes);
        var n1 := source.Nodes[c.node1];
        source.Nodes := source.Nodes[c.node1 := n1.(force := Add(n1.force, f))];
        var n2 := source.Nodes[c.node2];
        source.Nodes := source.Nodes[c.node2 := n2.(force := Add(n2.force, Scale(f, -1.0)))];
      }
      assert cs[..|cs|] == cs;
    }

    /** `TickUpdate(body, ts)`: moves and accelerates every unlocked node of
        the work copy, then recomputes its forces. */
    static method TickUpdate(body: SoftBody, ts: real)
      requires Ready(body)
      modifies body.workbody
      ensures Ready(body)
      ensures body.workbody.Connections == old(body.workbody.Connections)
      ensures body.workbody.Nodes ==
        Tick(old(body.workbody.Nodes), body.workbody.Connections.items, body.drag, body.ForceCalculator, ts)
    {
      var w := body.workbody;
      for i := 0 to |w.Nodes|
        invariant |w.Nodes| == |old(w.Nodes)| && w.Connections == old(w.Connections)
        invariant forall j :: 0 <= j < i ==> w.Nodes[j] == Integrate(old(w.Nodes), ts)[j]
        invariant forall j :: i <= j < |w.Nodes| ==> w.Nodes[j] == old(w.Nodes[j])
      {
        var node := w.Nodes[i];
        if node.islocked {
          continue;
        }
        w.Nodes := w.Nodes[i := node.(position := Add(node.position, Scale(node.velocity, ts)))];
        w.Nodes := w.Nodes[i := w.Nodes[i].(velocity := Add(node.velocity, DivBy(Scale(node.force, ts), node.mass)))];
      }
      assert w.Nodes == Integrate(old(w.Nodes), ts);
      CalculateForces(body, w);
      TickKeepsStructure(old(w.Nodes), w.Connections.items, body.drag, body.ForceCalculator, ts);
    }

    /** The first loop of a body step: copies of the starting positions
        and velocities. */
    static method Snapshot(nodes: seq<NodeValue>) returns (firstPositions: array<Vec3>, combinedVelocities: array<Vec3>)
      ensures fresh(firstPositions) && fresh(combinedVelocities) && firstPositions != combinedVelocities
      ensures firstPositions.Length == |nodes| == combinedVelocities.Length
      ensures forall j :: 0 <= j < |nodes| ==>
        firstPositions[j] == nodes[j].position && combinedVelocities[j] == nodes[j].velocity
    {
      combinedVelocities := new Vec3[|nodes|];
      firstPositions := new Vec3[|nodes|];
      for i := 0 to |nodes|
        invariant forall j :: 0 <= j < i ==> firstPositions[j] == nodes[j].position && combinedVelocities[j] == nodes[j].velocity
      {
        firstPositions[i] := nodes[i].position;
        combinedVelocities[i] := nodes[i].velocity;
      }
    }

    /** The loops after the first two ticks: adds twice each node's current
        velocity to its accumulated velocity. */
    static method AccumulateTwice(combinedVelocities: array<Vec3>, nodes: seq<NodeValue>)
      requires combinedVelocities.Length == |nodes|
      modifies combinedVelocities
      ensures forall j :: 0 <= j < |nodes| ==>
        combinedVelocities[j] == Add(old(combinedVelocities[j]), Scale(nodes[j].velocity, 2.0))
    {
      for i := 0 to |nodes|
        invariant forall j :: 0 <= j < i ==>
          combinedVelocities[j] == Add(old(combinedVelocities[j]), Scale(nodes[j].velocity, 2.0))
        invariant forall j :: i <= j < |nodes| ==> combinedVelocities[j] == old(combinedVelocities[j])
      {
        combinedVelocities[i] := Add(combinedVelocities[i], Scale(nodes[i].velocity, 2.0));
      }
    }

    /** The last loop of a body step: every node's position becomes its
        starting position plus `TS/6` times its accumulated velocity plus
        its current velocity. */
    static method PlaceNodes(w: SoftRepresentation, firstPositions: array<Vec3>, combinedVelocities: array<Vec3>, TS: real)
      requires firstPositions.Length == |w.Nodes| == combinedVelocities.Length
      modifies w
      ensures w.Connections == old(w.Connections) && |w.Nodes| == |old(w.Nodes)|
      ensures forall j :: 0 <= j < |w.Nodes| ==>
        w.Nodes[j] == old(w.Nodes[j]).(position :=
          Add(firstPositions[j], Scale(Add(combinedVelocities[j], old(w.Nodes[j]).velocity), TS / 6.0)))
    {
      for i := 0 to |w.Nodes|
        invariant w.Connections == old(w.Connections) && |w.Nodes| == |old(w.Nodes)|
        invariant forall j :: 0 <= j < i ==>
          w.Nodes[j] == old(w.Nodes[j]).(position :=
            Add(firstPositions[j], Scale(Add(combinedVelocities[j], old(w.Nodes[j]).velocity), TS / 6.0)))
        invariant forall j :: i <= j < |w.Nodes| ==> w.Nodes[j] == old(w.Nodes[j])
      {
        w.Nodes := w.Nodes[i := w.Nodes[i].(position :=
          Add(firstPositions[i], Scale(Add(combinedVelocities[i], w.Nodes[i].velocity), TS / 6.0)))];
      }
    }

    /** One body's share of a physics iteration: remembers the starting
        positions and velocities, runs ticks of `TS/2`, `TS/2` and `TS`
        while accumulating `v0 + 2 v1 + 2 v2`, then sets every position to
        the start plus `TS/6` times that sum plus `v3`. */
    static method StepBody(body: SoftBody, TS: real)
      requires Ready(body)
      modifies body.workbody
      ensures Ready(body)
      ensures body.workbody.Connections == old(body.workbody.Connections)
      ensures body.workbody.Nodes ==
        Step(old(body.workbody.Nodes), body.workbody.Connections.items, body.drag, body.ForceCalculator, TS)
    {
      var w := body.workbody;
      ghost var cs := w.Connections.items;
      ghost var d, law := body.drag, body.ForceCalculator;
      ghost var n0 := w.Nodes;
      var firstPositions, combinedVelocities := Snapshot(w.Nodes);
      ghost var fp := firstPositions[..];
      ghost var c0 := combinedVelocities[..];
      TickUpdate(body, TS / 2.0);
      ghost var n1 := w.Nodes;
      assert n1 == Tick(n0, cs, d, law, TS / 2.0);
      AccumulateTwice(combinedVelocities, w.Nodes);
      ghost var c1 := combinedVelocities[..];
      TickUpdate(body, TS / 2.0);
      ghost var n2 := w.Nodes;
      assert n2 == Tick(n1, cs, d, law, TS / 2.0);
      AccumulateTwice(combinedVelocities, w.Nodes);
      ghost var c2 := combinedVelocities[..];
      TickUpdate(body, TS);
      ghost var n3 := w.Nodes;
      assert n3 == Tick(n2, cs, d, law, TS);
      PlaceNodes(w, firstPositions, combinedVelocities, TS);
      ghost var r := w.Nodes;
      assert firstPositions[..] == fp && combinedVelocities[..] == c2;
      TickKeepsStructure(n0, cs, d, law, TS / 2.0);
      TickKeepsStructure(n1, cs, d, law, TS / 2.0);
      StepFromStages(n0, cs, d, law, TS, n1, n2, n3, fp, c2, r);
      StepKeepsStructure(n0, cs, d, law, TS);
    }

    /** The per-body loop of a physics iteration: each body in turn is
        stepped and then published to its draw copy. */
    static method StepAll(bs: seq<SoftBody>, ts: real)
      requires DistinctCopies(bs)
      requires forall j :: 0 <= j < |bs| ==> Ready(bs[j])
      modifies set b | b in bs :: b.workbody, set b | b in bs :: b.body
      ensures forall j :: 0 <= j < |bs| ==> Ready(bs[j]) && bs[j].workbody.Connections == old(bs[j].workbody.Connections)
      ensures forall j :: 0 <= j < |bs| ==>
        old(Ready(bs[j])) &&
        bs[j].workbody.Nodes == old(Step(bs[j].workbody.Nodes, bs[j].workbody.Connections.items, bs[j].drag, bs[j].ForceCalculator, ts))
      ensures forall j :: 0 <= j < |bs| ==>
        bs[j].body.Nodes == bs[j].workbody.Nodes && bs[j].body.Connections == bs[j].workbody.Connections
    {
      for i := 0 to |bs|
        invariant forall j :: 0 <= j < |bs| ==> Ready(bs[j]) && bs[j].workbody.Connections == old(bs[j].workbody.Connections)
        invariant forall j :: 0 <= j < i ==>
          old(Ready(bs[j])) &&
          bs[j].workbody.Nodes == old(Step(bs[j].workbody.Nodes, bs[j].workbody.Connections.items, bs[j].drag, bs[j].ForceCalculator, ts)) &&
          bs[j].body.Nodes == bs[j].workbody.Nodes && bs[j].body.Connections == bs[j].workbody.Connections
        invariant forall j :: i <= j < |bs| ==> bs[j].workbody.Nodes == old(bs[j].workbody.Nodes)
      {
        StepOne(bs, i, ts);
      }
    }

    /** The body of StepAll's loop for body `i`: steps it and publishes it
        to its draw copy; every other body is left as it was. */
    static method StepOne(bs: seq<SoftBody>, i: nat, ts: real)
      requires DistinctCopies(bs) && i < |bs|
      requires forall j :: 0 <= j < |bs| ==> Ready(bs[j])
      modifies bs[i].workbody, bs[i].body
      ensures forall j :: 0 <= j < |bs| ==> Ready(bs[j]) && bs[j].workbody.Connections == old(bs[j].workbody.Connections)
      ensures old(Ready(bs[i])) && bs[i].workbody.Nodes ==
        old(Step(bs[i].workbody.Nodes, bs[i].workbody.Connections.items, bs[i].drag, bs[i].ForceCalculator, ts))
      ensures bs[i].body.Nodes == bs[i].workbody.Nodes && bs[i].body.Connections == bs[i].workbody.Connections
      ensures forall j :: 0 <= j < |bs| && j != i ==>
        bs[j].workbody.Nodes == old(bs[j].workbody.Nodes) &&
        bs[j].body.Nodes == old(bs[j].body.Nodes) && bs[j].body.Connections == old(bs[j].body.Connections)
    {
      var b := bs[i];
      StepBody(b, ts);
      b.CopyOver();
    }

    /** One iteration of the physics loop: a zero counter skips the
        iteration (the source sleeps 7 ms); otherwise a positive counter is
        decremented, every body is stepped and published to its draw copy,
        and the simulated time advances by the tick size read at the start. */
    method PhysicsIteration() returns (ticked: bool)
      requires Valid() && DistinctCopies(bodies)
      requires forall i :: 0 <= i < |bodies| ==> Ready(bodies[i])
      modifies this, set b | b in bodies :: b.workbody, set b | b in bodies :: b.body
      ensures Valid() && bodies == old(bodies) && drawScales == old(drawScales) && collapsed == old(collapsed)
      ensures TS == old(TS)
      ensures ticked <==> old(pause) != 0
      ensures pause == PauseAfter(old(pause))
      ensures timePassed == if ticked then old(timePassed) + old(TS) else old(timePassed)
      ensures forall i :: 0 <= i < |bodies| ==>
        Ready(bodies[i]) && bodies[i].workbody.Connections == old(bodies[i].workbody.Connections)
      ensures forall i :: 0 <= i < |bodies| ==>
        old(Ready(bodies[i])) &&
        bodies[i].workbody.Nodes ==
          if ticked then old(Step(bodies[i].workbody.Nodes, bodies[i].workbody.Connections.items,
                                  bodies[i].drag, bodies[i].ForceCalculator, TS))
          else old(bodies[i].workbody.Nodes)
      ensures ticked ==> forall i :: 0 <= i < |bodies| ==>
        bodies[i].body.Nodes == bodies[i].workbody.Nodes && bodies[i].body.Connections == bodies[i].workbody.Connections
      ensures !ticked ==> forall i :: 0 <= i < |bodies| ==> bodies[i].body.Nodes == old(bodies[i].body.Nodes)
    {
      if pause == 0 {
        return false;
      }
      Advance();
      ticked := true;
    }

    /** The ticking part of an iteration: counts a positive counter down,
        steps and publishes every body, and advances the time by TS. */
    method Advance()
      requires Valid() && DistinctCopies(bodies) && pause != 0
      requires forall i :: 0 <= i < |bodies| ==> Ready(bodies[i])
      modifies this, set b | b in bodies :: b.workbody, set b | b in bodies :: b.body
      ensures Valid() && bodies == old(bodies) && drawScales == old(drawScales) && collapsed == old(collapsed)
      ensures TS == old(TS) && pause == PauseAfter(old(pause)) && timePassed == old(timePassed) + old(TS)
      ensures forall i :: 0 <= i < |bodies| ==>
        Ready(bodies[i]) && bodies[i].workbody.Connections == old(bodies[i].workbody.Connections)
      ensures forall i :: 0 <= i < |bodies| ==>
        old(Ready(bodies[i])) &&
        bodies[i].workbody.Nodes == old(Step(bodies[i].workbody.Nodes, bodies[i].workbody.Connections.items,
                                             bodies[i].drag, bodies[i].ForceCalculator, TS))
      ensures forall i :: 0 <= i < |bodies| ==>
        bodies[i].body.Nodes == bodies[i].workbody.Nodes && bodies[i].body.Connections == bodies[i].workbody.Connections
    {
      var ts := TS;
      if pause > 0 {
        pause := pause - 1;
      }
      StepAll(bodies, ts);
      timePassed := timePassed + ts;
    }

    /** The connection part of DrawBodies for one draw copy: gathers the
        adjacency lists of the nodes marked for drawing, sorts them, compacts
        repeats away, and queues one segment per remaining connection. */
    static method DrawConnections(rep: SoftRepresentation, drawer: GizmoDrawer) returns (ids: seq<nat>)
      requires ConnectionsInRange(rep.Connections.items, |rep.Nodes|)
      requires AdjacencyInRange(rep.Nodes, |rep.Connections.items|)
      requires drawer.Valid()
      modifies drawer
      ensures drawer.Valid()
      ensures ids == DrawIds(rep.Nodes)
      ensures forall k :: 0 <= k < |ids| ==> ids[k] < |rep.Connections.items|
      ensures drawer.lineDraws == QueueLines(old(drawer.lineDraws), SegmentsFor(rep.Nodes, rep.Connections.items, ids))
    {
      var gathered: seq<nat> := [];
      for j := 0 to |rep.Nodes|
        invariant gathered == Gathered(rep.Nodes[..j])
      {
        assert rep.Nodes[..j + 1][..j] == rep.Nodes[..j];
        var node := rep.Nodes[j];
        if node.drawconnections {
          gathered := gathered + node.connections;
        }
      }
      assert rep.Nodes[..|rep.Nodes|] == rep.Nodes;
      var sorted := SortAscending(gathered);
      var a := new nat[|sorted|](k requires 0 <= k < |sorted| => sorted[k]);
      assert a[..] == sorted;
      var head := Compact(a);
      ids := a[..head];
      assert ids == DrawIds(rep.Nodes);
      DrawIdsInRange(rep.Nodes, |rep.Connections.items|);
      var cs := rep.Connections.items;
      var segs := SegmentsFor(rep.Nodes, cs, ids);
      for k := 0 to |ids|
        invariant drawer.Valid()
        invariant drawer.lineDraws == QueueLines(old(drawer.lineDraws), segs[..k])
      {
        assert segs[..k + 1][..k] == segs[..k];
        var connection := cs[ids[k]];
        var point1 := rep.Nodes[connection.node1].position;
        var point2 := rep.Nodes[connection.node2].position;
        drawer.DrawLine(point1, point2);
      }
      assert segs[..|ids|] == segs;
    }

    /** DrawBodies: the connections of every registered body's draw copy,
        body by body. */
    method DrawBodies(drawer: GizmoDrawer)
      requires DrawCopiesInRange(bodies)
      requires drawer.Valid()
      modifies drawer
      ensures drawer.Valid()
      ensures drawer.lineDraws == QueueLines(old(drawer.lineDraws), SegmentsOfBodies(bodies, |bodies|))
      ensures old(drawer.lineDraws) <= drawer.lineDraws
      ensures forall i :: 0 <= i < |bodies| ==> bodies[i].body.Nodes == old(bodies[i].body.Nodes)
    {
      var bs := bodies;
      for i := 0 to |bs|
        invariant drawer.Valid()
        invariant drawer.lineDraws == QueueLines(old(drawer.lineDraws), SegmentsOfBodies(bs, i))
        invariant old(drawer.lineDraws) <= drawer.lineDraws
      {
        DrawBody(bs, i, drawer, old(drawer.lineDraws));
      }
    }

    /** One pass of DrawBodies' loop: queues body `i`'s segments after
        those of the bodies before it. */
    static method DrawBody(bs: seq<SoftBody>, i: nat, drawer: GizmoDrawer, ghost start: seq<Line>)
      requires i < |bs| && DrawCopiesInRange(bs) && drawer.Valid()
      requires start <= drawer.lineDraws
      requires drawer.lineDraws == QueueLines(start, SegmentsOfBodies(bs, i))
      modifies drawer
      ensures drawer.Valid()
      ensures start <= drawer.lineDraws
      ensures drawer.lineDraws == QueueLines(start, SegmentsOfBodies(bs, i + 1))
    {
      ghost var before := drawer.lineDraws;
      var ids := DrawConnections(bs[i].body, drawer);
      ghost var segs := SegmentsFor(bs[i].body.Nodes, bs[i].body.Connections.items, ids);
      QueueLinesEffect(before, segs);
      QueueLinesConcat(start, SegmentsOfBodies(bs, i), segs);
    }
  }
}
