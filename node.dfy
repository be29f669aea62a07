/** The simulation's point mass (Node.h). */
module Nodes {
  import opened Vectors

  /** The eight fields of a node, as a value: what a `std::vector<Node>`
      holds and what copying a node copies. `connections` holds indices
      into the owning body's connection list. */
  datatype NodeValue = NodeValue(
    velocity: Vec3,
    force: Vec3,
    position: Vec3,
    mass: real,
    islocked: bool,
    connections: seq<nat>,
    imguiopen: bool,
    drawconnections: bool)

  /** The mass a node gets when nothing else is said (the 0.004f initialiser). */
  const DefaultMass: real := 0.004

  /** The state of a default-constructed node. */
  const DefaultNode: NodeValue :=
    NodeValue(Zero, Zero, Zero, DefaultMass, false, [], false, false)

  /** A node object whose constructors and assignment set its fields one by one. */
  class Node {
    var velocity: Vec3
    var force: Vec3
    var position: Vec3
    var mass: real
    var islocked: bool
    var connections: seq<nat>
    var imguiopen: bool
    var drawconnections: bool

    /** All eight fields of this node, as a value. */
    function Value(): NodeValue
      reads this
    {
      NodeValue(velocity, force, position, mass, islocked, connections, imguiopen, drawconnections)
    }

    /** `Node()`: zero vectors, mass 0.004, no connections, all three flags cleared. */
    constructor ()
      ensures !islocked && !drawconnections && !imguiopen
      ensures velocity == Zero && force == Zero && position == Zero
      ensures mass == DefaultMass && connections == []
      ensures Value() == DefaultNode
    {
      velocity := Zero;
      force := Zero;
      position := Zero;
      mass := DefaultMass;
      connections := [];
      islocked := false;
      drawconnections := false;
      imguiopen := false;
    }

    /** `Node(const Node& other)`: a field-by-field copy, flags included. */
    constructor Copy(other: Node)
      ensures Value() == other.Value()
    {
      position := other.position;
      velocity := other.velocity;
      force := other.force;
      connections := other.connections;
      mass := other.mass;
      islocked := other.islocked;
      drawconnections := other.drawconnections;
      imguiopen := other.imguiopen;
    }

    /** `operator=`: overwrites all eight fields with the other node's; the
        other node is left as it was (also when it is this node). */
    method Assign(other: Node)
      modifies this
      ensures Value() == old(other.Value())
      ensures other.Value() == old(other.Value())
    {
      position := other.position;
      velocity := other.velocity;
      force := other.force;
      connections := other.connections;
      mass := other.mass;
      islocked := other.islocked;
      drawconnections := other.drawconnections;
      imguiopen := other.imguiopen;
    }
  }
}
