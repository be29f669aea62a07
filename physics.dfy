/** The numerical core of PhysicsHandler.cpp as functions on node vectors:
    force accumulation, one explicit tick, and the four-tick body step. The
    methods in PhysicsHandlers are proved to compute exactly these. */
module Physics {
  import opened Vectors
  import opened Nodes
  import opened SoftBodies

  /** The vertical gravitational acceleration applied to every node. */
  const GravityY: real := -9.8

  /** The force a node starts every evaluation with: drag opposing its
      velocity plus its weight, `-drag * v + (0, -9.8 m, 0)`. */
  function BaseForce(n: NodeValue, drag: real): Vec3 {
    Add(Scale(Scale(n.velocity, drag), -1.0), Vec3(0.0, GravityY * n.mass, 0.0))
  }

  /** The first loop of CalculateForces: every node, locked or not, has its
      force reset to its base force. */
  function ResetForces(nodes: seq<NodeValue>, drag: real): (r: seq<NodeValue>)
    ensures |r| == |nodes|
  {
    seq(|nodes|, i requires 0 <= i < |nodes| => nodes[i].(force := BaseForce(nodes[i], drag)))
  }

  /** `nodes[i].force += f` */
  function AddForce(nodes: seq<NodeValue>, i: nat, f: Vec3): (r: seq<NodeValue>)
    requires i < |nodes|
    ensures |r| == |nodes|
  {
    nodes[i := nodes[i].(force := Add(nodes[i].force, f))]
  }

  /** One connection's contribution: the law's force `f`, evaluated on the
      current nodes, is added to node1, then `-1 * f` is added to node2. */
  function ApplyConnection(nodes: seq<NodeValue>, c: Connection, law: ForceLaw): (r: seq<NodeValue>)
    requires c.node1 < |nodes| && c.node2 < |nodes|
    ensures |r| == |nodes|
  {
    var f := law(c, nodes);
    AddForce(AddForce(nodes, c.node1, f), c.node2, Scale(f, -1.0))
  }

  /** The second loop of CalculateForces: every connection in order. */
  function ApplySprings(nodes: seq<NodeValue>, cs: seq<Connection>, law: ForceLaw): (r: seq<NodeValue>)
    requires ConnectionsInRange(cs, |nodes|)
    ensures |r| == |nodes|
    decreases |cs|
  {
    if cs == [] then nodes
    else ApplyConnection(ApplySprings(nodes, cs[..|cs| - 1], law), cs[|cs| - 1], law)
  }

  /** `CalculateForces`: the nodes with their forces recomputed. */
  function CalculateForcesSpec(nodes: seq<NodeValue>, cs: seq<Connection>, drag: real, law: ForceLaw): (r: seq<NodeValue>)
    requires ConnectionsInRange(cs, |nodes|)
    ensures |r| == |nodes|
  {
    ApplySprings(ResetForces(nodes, drag), cs, law)
  }

  /** Every unlocked node has a mass it can be divided by. */
  ghost predicate UnlockedMassesNonZero(nodes: seq<NodeValue>) {
    forall i :: 0 <= i < |nodes| && !nodes[i].islocked ==> nodes[i].mass != 0.0
  }

  /** The integration loop of TickUpdate: a locked node is skipped; an
      unlocked one moves by `ts * v` with its old velocity, then its
      velocity grows by `ts * F / m` with its stored force. */
  function Integrate(nodes: seq<NodeValue>, ts: real): (r: seq<NodeValue>)
    requires UnlockedMassesNonZero(nodes)
    ensures |r| == |nodes|
  {
    seq(|nodes|, i requires 0 <= i < |nodes| =>
      var n := nodes[i];
      if n.islocked then n
      else n.(position := Add(n.position, Scale(n.velocity, ts)),
              velocity := Add(n.velocity, DivBy(Scale(n.force, ts), n.mass))))
  }

  /** `TickUpdate`: integrate with the stored forces, then recompute forces. */
  function Tick(nodes: seq<NodeValue>, cs: seq<Connection>, drag: real, law: ForceLaw, ts: real): (r: seq<NodeValue>)
    requires ConnectionsInRange(cs, |nodes|) && UnlockedMassesNonZero(nodes)
    ensures |r| == |nodes|
  {
    CalculateForcesSpec(Integrate(nodes, ts), cs, drag, law)
  }

  /** The final position of one node after a step: its starting position
      plus `TS/6` times `v0 + 2 v1 + 2 v2 + v3`, accumulated in that order. */
  function CombinedPosition(p0: Vec3, v0: Vec3, v1: Vec3, v2: Vec3, v3: Vec3, TS: real): Vec3 {
    Add(p0, Scale(Add(Add(Add(v0, Scale(v1, 2.0)), Scale(v2, 2.0)), v3), TS / 6.0))
  }

  /** One body's share of a physics tick in DoPhysics: ticks of `TS/2`,
      `TS/2` and `TS`, each starting from the state the previous one left,
      then every node (locked ones included) is placed at its combined
      position; velocities and forces are left as the last tick made them. */
  function Step(nodes: seq<NodeValue>, cs: seq<Connection>, drag: real, law: ForceLaw, TS: real): (r: seq<NodeValue>)
    requires ConnectionsInRange(cs, |nodes|) && UnlockedMassesNonZero(nodes)
    ensures |r| == |nodes|
  {
    TickKeepsStructure(nodes, cs, drag, law, TS / 2.0);
    var n1 := Tick(nodes, cs, drag, law, TS / 2.0);
    TickKeepsStructure(n1, cs, drag, law, TS / 2.0);
    var n2 := Tick(n1, cs, drag, law, TS / 2.0);
    var n3 := Tick(n2, cs, drag, law, TS);
    seq(|nodes|, i requires 0 <= i < |nodes| =>
      n3[i].(position := CombinedPosition(nodes[i].position, nodes[i].velocity,
                                          n1[i].velocity, n2[i].velocity, n3[i].velocity, TS)))
  }

  /** A step, stated through its three intermediate ticks. */
  lemma StepThroughTicks(nodes: seq<NodeValue>, cs: seq<Connection>, drag: real, law: ForceLaw, TS: real,
                         n1: seq<NodeValue>, n2: seq<NodeValue>, n3: seq<NodeValue>)
    requires ConnectionsInRange(cs, |nodes|) && UnlockedMassesNonZero(nodes)
    requires n1 == Tick(nodes, cs, drag, law, TS / 2.0)
    requires ConnectionsInRange(cs, |n1|) && UnlockedMassesNonZero(n1) && n2 == Tick(n1, cs, drag, law, TS / 2.0)
    requires ConnectionsInRange(cs, |n2|) && UnlockedMassesNonZero(n2) && n3 == Tick(n2, cs, drag, law, TS)
    ensures |n3| == |nodes|
    ensures forall i :: 0 <= i < |nodes| ==>
      Step(nodes, cs, drag, law, TS)[i] ==
        n3[i].(position := CombinedPosition(nodes[i].position, nodes[i].velocity,
                                            n1[i].velocity, n2[i].velocity, n3[i].velocity, TS))
  {
  }

  /** The bookkeeping of a body step, stated on the values it handles:
      the saved starting positions `fp`, the accumulated velocities `cv`,
      and the final node vector `r`. */
  lemma StepFromStages(nodes: seq<NodeValue>, cs: seq<Connection>, drag: real, law: ForceLaw, TS: real,
                       n1: seq<NodeValue>, n2: seq<NodeValue>, n3: seq<NodeValue>,
                       fp: seq<Vec3>, cv: seq<Vec3>, r: seq<NodeValue>)
    requires ConnectionsInRange(cs, |nodes|) && UnlockedMassesNonZero(nodes)
    requires n1 == Tick(nodes, cs, drag, law, TS / 2.0)
    requires ConnectionsInRange(cs, |n1|) && UnlockedMassesNonZero(n1) && n2 == Tick(n1, cs, drag, law, TS / 2.0)
    requires ConnectionsInRange(cs, |n2|) && UnlockedMassesNonZero(n2) && n3 == Tick(n2, cs, drag, law, TS)
    requires |fp| == |nodes| == |cv| == |r|
    requires forall j :: 0 <= j < |nodes| ==> fp[j] == nodes[j].position
    requires forall j :: 0 <= j < |nodes| ==>
      cv[j] == Add(Add(nodes[j].velocity, Scale(n1[j].velocity, 2.0)), Scale(n2[j].velocity, 2.0))
    requires forall j :: 0 <= j < |nodes| ==>
      r[j] == n3[j].(position := Add(fp[j], Scale(Add(cv[j], n3[j].velocity), TS / 6.0)))
    ensures r == Step(nodes, cs, drag, law, TS)
  {
    StepThroughTicks(nodes, cs, drag, law, TS, n1, n2, n3);
  }

  // ---------------------------------------------------------------------
  // What the force, tick and step functions keep

  /** The two node vectors agree on everything except position, velocity and force. */
  ghost predicate SameStructure(a: seq<NodeValue>, b: seq<NodeValue>) {
    |a| == |b| &&
    forall i :: 0 <= i < |a| ==>
      a[i].mass == b[i].mass && a[i].islocked == b[i].islocked &&
      a[i].connections == b[i].connections &&
      a[i].imguiopen == b[i].imguiopen && a[i].drawconnections == b[i].drawconnections
  }

  /** The two node vectors agree on everything except force. */
  ghost predicate SameExceptForce(a: seq<NodeValue>, b: seq<NodeValue>) {
    |a| == |b| &&
    forall i :: 0 <= i < |a| ==>
      a[i].position == b[i].position && a[i].velocity == b[i].velocity &&
      a[i].mass == b[i].mass && a[i].islocked == b[i].islocked &&
      a[i].connections == b[i].connections &&
      a[i].imguiopen == b[i].imguiopen && a[i].drawconnections == b[i].drawconnections
  }

  /** Spring accumulation writes forces only. */
  lemma {:induction false} ApplySpringsOnlyForces(nodes: seq<NodeValue>, cs: seq<Connection>, law: ForceLaw)
    requires ConnectionsInRange(cs, |nodes|)
    ensures SameExceptForce(ApplySprings(nodes, cs, law), nodes)
    decreases |cs|
  {
    if cs != [] {
      ApplySpringsOnlyForces(nodes, cs[..|cs| - 1], law);
    }
  }

  /** CalculateForces writes forces only: every other field of every node
      is kept. */
  lemma CalculateForcesOnlyForces(nodes: seq<NodeValue>, cs: seq<Connection>, drag: real, law: ForceLaw)
    requires ConnectionsInRange(cs, |nodes|)
    ensures SameExceptForce(CalculateForcesSpec(nodes, cs, drag, law), nodes)
  {
    ApplySpringsOnlyForces(ResetForces(nodes, drag), cs, law);
  }

  /** A tick changes positions, velocities and forces, and nothing else:
      the node count, masses, flags and adjacency lists are kept. */
  lemma TickKeepsStructure(nodes: seq<NodeValue>, cs: seq<Connection>, drag: real, law: ForceLaw, ts: real)
    requires ConnectionsInRange(cs, |nodes|) && UnlockedMassesNonZero(nodes)
    ensures SameStructure(Tick(nodes, cs, drag, law, ts), nodes)
    ensures UnlockedMassesNonZero(Tick(nodes, cs, drag, law, ts))
    ensures ConnectionsInRange(cs, |Tick(nodes, cs, drag, law, ts)|)
  {
    CalculateForcesOnlyForces(Integrate(nodes, ts), cs, drag, law);
  }

  /** TickUpdate leaves a locked node's position and velocity as they were;
      an unlocked node moves by `ts` times its old velocity and its velocity
      grows by `ts` times its stored force over its mass. */
  lemma TickMotion(nodes: seq<NodeValue>, cs: seq<Connection>, drag: real, law: ForceLaw, ts: real, i: nat)
    requires ConnectionsInRange(cs, |nodes|) && UnlockedMassesNonZero(nodes)
    requires i < |nodes|
    ensures var r := Tick(nodes, cs, drag, law, ts);
      if nodes[i].islocked then
        r[i].position == nodes[i].position && r[i].velocity == nodes[i].velocity
      else
        r[i].position == Add(nodes[i].position, Scale(nodes[i].velocity, ts)) &&
        r[i].velocity == Add(nodes[i].velocity, DivBy(Scale(nodes[i].force, ts), nodes[i].mass))
  {
    CalculateForcesOnlyForces(Integrate(nodes, ts), cs, drag, law);
  }

  /** A step keeps the node count, masses, flags and adjacency lists. */
  lemma StepKeepsStructure(nodes: seq<NodeValue>, cs: seq<Connection>, drag: real, law: ForceLaw, TS: real)
    requires ConnectionsInRange(cs, |nodes|) && UnlockedMassesNonZero(nodes)
    ensures SameStructure(Step(nodes, cs, drag, law, TS), nodes)
    ensures UnlockedMassesNonZero(Step(nodes, cs, drag, law, TS))
  {
    TickKeepsStructure(nodes, cs, drag, law, TS / 2.0);
    var n1 := Tick(nodes, cs, drag, law, TS / 2.0);
    TickKeepsStructure(n1, cs, drag, law, TS / 2.0);
    var n2 := Tick(n1, cs, drag, law, TS / 2.0);
    TickKeepsStructure(n2, cs, drag, law, TS);
  }

  /** A locked node's velocity is never integrated, so its three stage
      velocities equal its starting one and the step moves it by exactly
      `TS * v0`: a locked node at rest stays where it is, and a node locked
      while moving keeps drifting. */
  lemma LockedNodeStep(nodes: seq<NodeValue>, cs: seq<Connection>, drag: real, law: ForceLaw, TS: real, i: nat)
    requires ConnectionsInRange(cs, |nodes|) && UnlockedMassesNonZero(nodes)
    requires i < |nodes| && nodes[i].islocked
    ensures Step(nodes, cs, drag, law, TS)[i].position == Add(nodes[i].position, Scale(nodes[i].velocity, TS))
    ensures Step(nodes, cs, drag, law, TS)[i].velocity == nodes[i].velocity
    ensures nodes[i].velocity == Zero ==> Step(nodes, cs, drag, law, TS)[i].position == nodes[i].position
  {
    TickKeepsStructure(nodes, cs, drag, law, TS / 2.0);
    TickMotion(nodes, cs, drag, law, TS / 2.0, i);
    var n1 := Tick(nodes, cs, drag, law, TS / 2.0);
    TickKeepsStructure(n1, cs, drag, law, TS / 2.0);
    TickMotion(n1, cs, drag, law, TS / 2.0, i);
    var n2 := Tick(n1, cs, drag, law, TS / 2.0);
    TickKeepsStructure(n2, cs, drag, law, TS);
    TickMotion(n2, cs, drag, law, TS, i);
    var v := nodes[i].velocity;
    var c := CombinedPosition(nodes[i].position, v, v, v, v, TS);
    assert c.x == nodes[i].position.x + v.x * TS;
    assert c.y == nodes[i].position.y + v.y * TS;
    assert c.z == nodes[i].position.z + v.z * TS;
  }

  // ---------------------------------------------------------------------
  // Newton's third law: springs add no net force

  /** The sum of the nodes' forces. */
  function TotalForce(nodes: seq<NodeValue>): Vec3 {
    if nodes == [] then Zero else Add(TotalForce(nodes[..|nodes| - 1]), nodes[|nodes| - 1].force)
  }

  /** The sum of the nodes' base forces: total drag plus total weight. */
  function TotalBaseForce(nodes: seq<NodeValue>, drag: real): Vec3 {
    if nodes == [] then Zero else Add(TotalBaseForce(nodes[..|nodes| - 1], drag), BaseForce(nodes[|nodes| - 1], drag))
  }

  /** Adding `f` to one node's force adds `f` to the total. */
  lemma {:induction false} TotalForceAdd(nodes: seq<NodeValue>, i: nat, f: Vec3)
    requires i < |nodes|
    ensures TotalForce(AddForce(nodes, i, f)) == Add(TotalForce(nodes), f)
    decreases |nodes|
  {
    var last := |nodes| - 1;
    var r := AddForce(nodes, i, f);
    assert r[..last] == if i < last then AddForce(nodes[..last], i, f) else nodes[..last];
    if i < last {
      TotalForceAdd(nodes[..last], i, f);
    }
  }

  /** Each connection adds `f` to one node and `-f` to another (or both to
      the same node), so the total force is unchanged. */
  lemma ApplyConnectionBalanced(nodes: seq<NodeValue>, c: Connection, law: ForceLaw)
    requires c.node1 < |nodes| && c.node2 < |nodes|
    ensures TotalForce(ApplyConnection(nodes, c, law)) == TotalForce(nodes)
  {
    var f := law(c, nodes);
    TotalForceAdd(nodes, c.node1, f);
    TotalForceAdd(AddForce(nodes, c.node1, f), c.node2, Scale(f, -1.0));
  }

  /** Node1 receives exactly `f` and node2 exactly `-f`; every other node's
      force is unchanged. */
  lemma ApplyConnectionEffect(nodes: seq<NodeValue>, c: Connection, law: ForceLaw, j: nat)
    requires c.node1 < |nodes| && c.node2 < |nodes| && c.node1 != c.node2 && j < |nodes|
    ensures var f := law(c, nodes); var r := ApplyConnection(nodes, c, law);
      r[j].force == if j == c.node1 then Add(nodes[j].force, f)
                    else if j == c.node2 then Add(nodes[j].force, Scale(f, -1.0))
                    else nodes[j].force
  {
  }

  /** Accumulating all spring forces leaves the total force unchanged. */
  lemma {:induction false} SpringsCancel(nodes: seq<NodeValue>, cs: seq<Connection>, law: ForceLaw)
    requires ConnectionsInRange(cs, |nodes|)
    ensures TotalForce(ApplySprings(nodes, cs, law)) == TotalForce(nodes)
    decreases |cs|
  {
    if cs != [] {
      SpringsCancel(nodes, cs[..|cs| - 1], law);
      ApplyConnectionBalanced(ApplySprings(nodes, cs[..|cs| - 1], law), cs[|cs| - 1], law);
    }
  }

  /** After the reset loop the total force is the total base force. */
  lemma {:induction false} ResetTotal(nodes: seq<NodeValue>, drag: real)
    ensures TotalForce(ResetForces(nodes, drag)) == TotalBaseForce(nodes, drag)
    decreases |nodes|
  {
    if nodes != [] {
      var last := |nodes| - 1;
      assert ResetForces(nodes, drag)[..last] == ResetForces(nodes[..last], drag);
      ResetTotal(nodes[..last], drag);
    }
  }

  /** Newton's third law in CalculateForces: whatever the force law, the
      forces it leaves sum to the total drag plus the total weight. */
  lemma ForcesSumToExternal(nodes: seq<NodeValue>, cs: seq<Connection>, drag: real, law: ForceLaw)
    requires ConnectionsInRange(cs, |nodes|)
    ensures TotalForce(CalculateForcesSpec(nodes, cs, drag, law)) == TotalBaseForce(nodes, drag)
  {
    SpringsCancel(ResetForces(nodes, drag), cs, law);
    ResetTotal(nodes, drag);
  }

  /** The base force depends on velocity and mass only. */
  lemma {:induction false} TotalBaseForceFromVelocities(a: seq<NodeValue>, b: seq<NodeValue>, drag: real)
    requires |a| == |b|
    requires forall i :: 0 <= i < |a| ==> a[i].velocity == b[i].velocity && a[i].mass == b[i].mass
    ensures TotalBaseForce(a, drag) == TotalBaseForce(b, drag)
    decreases |a|
  {
    if a != [] {
      TotalBaseForceFromVelocities(a[..|a| - 1], b[..|b| - 1], drag);
    }
  }

  /** After a step the stored forces still sum to the total drag plus
      weight at the step's final velocities: positions are overwritten last,
      and no force is recomputed after that. */
  lemma StepForceBalance(nodes: seq<NodeValue>, cs: seq<Connection>, drag: real, law: ForceLaw, TS: real)
    requires ConnectionsInRange(cs, |nodes|) && UnlockedMassesNonZero(nodes)
    ensures TotalForce(Step(nodes, cs, drag, law, TS)) == TotalBaseForce(Step(nodes, cs, drag, law, TS), drag)
  {
    TickKeepsStructure(nodes, cs, drag, law, TS / 2.0);
    var n1 := Tick(nodes, cs, drag, law, TS / 2.0);
    TickKeepsStructure(n1, cs, drag, law, TS / 2.0);
    var n2 := Tick(n1, cs, drag, law, TS / 2.0);
    var n3 := Tick(n2, cs, drag, law, TS);
    var r := Step(nodes, cs, drag, law, TS);
    TickForceBalance(n2, cs, drag, law, TS);
    TotalBaseForceFromVelocities(r, n3, drag);
    TotalForceSameForces(r, n3);
  }

  /** After a tick the stored forces sum to the total drag plus weight at
      the tick's new velocities: the springs' contributions cancel. */
  lemma TickForceBalance(nodes: seq<NodeValue>, cs: seq<Connection>, drag: real, law: ForceLaw, ts: real)
    requires ConnectionsInRange(cs, |nodes|) && UnlockedMassesNonZero(nodes)
    ensures TotalForce(Tick(nodes, cs, drag, law, ts)) == TotalBaseForce(Tick(nodes, cs, drag, law, ts), drag)
  {
    var moved := Integrate(nodes, ts);
    ForcesSumToExternal(moved, cs, drag, law);
    CalculateForcesOnlyForces(moved, cs, drag, law);
    TotalBaseForceFromVelocities(Tick(nodes, cs, drag, law, ts), moved, drag);
  }

  /** Two node vectors with the same forces have the same total force. */
  lemma {:induction false} TotalForceSameForces(a: seq<NodeValue>, b: seq<NodeValue>)
    requires |a| == |b| && forall i :: 0 <= i < |a| ==> a[i].force == b[i].force
    ensures TotalForce(a) == TotalForce(b)
    decreases |a|
  {
    if a != [] {
      TotalForceSameForces(a[..|a| - 1], b[..|b| - 1]);
    }
  }
}
