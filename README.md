# physicsengine — a Dafny model of the soft-body core

The physics engine simulates soft bodies as mass–spring graphs.
- A body is a vector of nodes plus a vector of connections. A node has position, velocity, force, mass, a lock flag, UI flags and an adjacency list. A connection is a spring between two nodes with a rest length.
- The `PhysicsHandler` keeps the registered bodies and steps them on a physics thread. It does this with a staged integrator built out of `TickUpdate` and `CalculateForces`.
- Every body exists twice: a *work* copy that the simulation advances and a *draw* copy that the UI reads. `CopyOver` publishes the work copy; `CopyBack` writes the UI-editable flags back.

This project models that core in Dafny and proves what it does:

| file | module | what it models |
|---|---|---|
| `vectors.dfy` | `Vectors` | `glm::vec3` over reals |
| `options.dfy` | `Options` | an option type |
| `node.dfy` | `Nodes` | `Node` (Node.h): a class with the eight fields, its constructors and `operator=` |
| `softbody.dfy` | `SoftBodies` | `SoftRepresentation`, `SoftBody` (SoftBody.h, SoftBody.cpp): building the graph, `copyview`, `copyback`, `CopyOver`, `CopyBack` |
| `physics.dfy` | `Physics` | specification functions for force accumulation, one tick and one full step, and the lemmas about them |
| `handler.dfy` | `PhysicsHandlers` | `PhysicsHandler` (PhysicsHandler.cpp): the registry, `CalculateForces`, `TickUpdate`, one iteration of `DoPhysics`, the pause counter and its buttons, `DrawBodies` |
| `drawlist.dfy` | `DrawList` | the sort-and-compact de-duplication of `DrawBodies` |
| `drawer.dfy` | `Drawing` | `GizmoDrawer` (Drawer.cpp): the bounded line queue and the clamped upload |
| `shader.dfy` | `Shaders` | `Shader::PreProcess` and the stage selection of `Shader::Compile` (src/shader.cpp) |
| `grid.dfy` | `Grid` | `GetAdjacents`, the connection filter and the bottom-layer lock of main.cpp |
| `benchmark.dfy` | `Benchmark` | `buildPendulum`, `buildSheet` and the lock choices of benchmark.cpp |
| `gpu_benchmark.dfy` | `GpuBenchmark` | `buildPendulum` with its 30-slot adjacency arrays, and the `buildSheet` connection list, of src/benchmark.cpp |
| `gpu_main.dfy` | `GpuMain` | `VoidData`, `MeshToFloats`, the lock loop and the `doTick` counter of src/main.cpp |
| `arith.dfy` | `Arithmetic` | small facts about multiplication and Euclidean division that the index proofs use |

## Modelling choices

**Layout.** The repository's files come from different iterations:
- `SoftBody.h` holds `Connections` through a pointer and declares a two-argument force calculator.
- `SoftBody.cpp` and `PhysicsHandler.cpp` use a vector and call the calculator with one argument.
- `Node.h` stores `uint` adjacency entries, while `SoftBody.cpp` pushes pointers.

The model uses one layout throughout:
- Nodes and connections are sequences.
- A connection names its nodes by index, and an adjacency list holds connection indices.
- The connection vector is a `ConnectionList` object. `SoftRepresentation::Copy` shares it, so the draw copy refers to the work copy's list, as the pointer in SoftBody.h does.
- The force law takes the connection and the nodes.

**Numbers.**
- `float` and `double` are Dafny `real`s.
- The square roots inside `glm::length` and `glm::normalize` are the two functions of a `Geometry` parameter.
- The force calculator is a function-valued field of the body.
- Unsigned and fixed-width integers are unbounded `nat`/`int`. The exceptions are where the width changes behaviour: the 64-bit tick counter and the unsigned comparison with `ticks_per_frame` in src/main.cpp are written out with explicit moduli.

**Concurrency.** Threads, mutexes and atomics are replaced by sequential calls.
- `CopyOver` and `CopyBack` are modelled by their effect once the copy thread is joined.
- One iteration of the `DoPhysics` loop is a method, `PhysicsIteration`.

**What the code does where a reader might expect otherwise:**
- The integrator is not classical 4-stage Runge–Kutta: each stage starts from the previous stage's state, not from the step's initial state. `Physics.Step` is exactly what the code computes:
  - three ticks of sizes TS/2, TS/2 and TS;
  - final position p₀ + TS/6·(v₀ + 2v₁ + 2v₂ + v₃);
  - final velocity v₃.
- A locked node is not pinned. It keeps its velocity through the three ticks, and the final position update still applies to it. So a locked node moves by TS·v₀ per step, and it stays put only when it is at rest (`Physics.LockedNodeStep`).
- The constructor rejects neither out-of-range nor self-referencing pairs:
  - It indexes the node vector without a bound check, so the model requires every pair to be in range.
  - A self pair (j, j) is accepted and puts its index into node j's list twice (`SoftBodies.AdjacencyCounts`).
- The write-back copies the lock flag, the mass and also the two UI flags `imguiopen` and `drawconnections`.

## Model

| member | source | states |
|---|---|---|
| Nodes.Node.constructor | Node.h:12-16 | a default node has all three flags false, zero position, velocity and force, mass 0.004 and no adjacency entries (the initialisers at Node.h:40-47) |
| Nodes.Node.Copy | Node.h:18-27 | the copy equals the original in all eight fields, the three flags included |
| Nodes.Node.Assign | Node.h:29-38 | assignment overwrites all eight fields of the target with the source's and leaves the source as it was |
| SoftBodies.SoftBody.constructor | SoftBody.cpp:7-29 | the work copy has one node per position with that position and mass `nodeweight`, one connection per pair in input order joining exactly that pair, and each node's adjacency list built from the pairs; the draw copy equals the work copy; drag is 0.1 and the force law is the standard one (SoftBody.h:41, 47); requires every pair index to be in range |
| SoftBodies.InitialGraphInRange | SoftBody.cpp:17-26 | when the pairs are in range, every built connection joins two existing nodes and every adjacency entry names an existing connection |
| SoftBodies.AdjacencyCounts | SoftBody.cpp:23-24 | connection k occurs in node j's list exactly as often as it has j as an endpoint: twice for a self pair, once or not at all otherwise |
| SoftBodies.AdjacencySorted | SoftBody.cpp:19-26 | every node's adjacency list is in ascending order of connection index and names only existing connections |
| SoftBodies.SoftBody.PlaceNodes | SoftBody.cpp:11-15 | the node vector becomes one default node per position, with that position and mass `nodeweight` and no adjacency entries yet; the connection list stays |
| SoftBodies.SoftBody.AddConnection | SoftBody.cpp:19-25 | handling pair k appends its connection to the list and k to the lists of its first and second endpoint, so the nodes and list after k + 1 pairs are those the specification builds from the first k + 1 pairs |
| SoftBodies.CopyBackFields | SoftBody.cpp:57-67 | `copyback` never changes position, velocity, force or adjacency; with equal node counts it copies lock, mass and the two UI flags node by node; with different counts it changes nothing |
| SoftBodies.CopyBackIdempotent | SoftBody.cpp:57-69 | a second `copyback` from the same source leaves the target unchanged |
| SoftBodies.ConnectionList.PushBack | SoftBody.cpp:22 | appends one connection at the end and keeps the earlier ones |
| SoftBodies.SoftRepresentation.Copy | SoftBody.h:19-23 | the target's nodes become the source's, whatever the target held before; the target shares the source's connection list; the source is unchanged |
| SoftBodies.SoftBody.CopyView | SoftBody.cpp:51-55 | the target becomes a copy of the source and the source is unchanged |
| SoftBodies.SoftBody.CopyBackNodes | SoftBody.cpp:57-69 | the target's nodes become `CopyBackSpec` of the two copies; its connections stay |
| SoftBodies.SoftBody.CopyOver | SoftBody.cpp:37-42 | the draw copy equals the work copy afterwards and the work copy is unchanged |
| SoftBodies.SoftBody.CopyBack | SoftBody.cpp:44-49 | the work copy's nodes become the write-back of the draw copy's flags and its connections stay |
| Physics.CalculateForcesOnlyForces | PhysicsHandler.cpp:152-172 | computing forces changes only the force field of each node |
| Physics.ApplyConnectionEffect | PhysicsHandler.cpp:165-169 | a connection between two distinct nodes adds f to node1's force, exactly −f to node2's, and changes no other node |
| Physics.ApplyConnectionBalanced | PhysicsHandler.cpp:166-168 | one connection leaves the total force unchanged, self pairs included |
| Physics.SpringsCancel | PhysicsHandler.cpp:165-169 | the spring loop leaves the total force of the body unchanged |
| Physics.ResetTotal | PhysicsHandler.cpp:156-160 | after the reset loop the total force is Σ(−drag·vᵢ + (0, −9.8·mᵢ, 0)) |
| Physics.ForcesSumToExternal | PhysicsHandler.cpp:152-172 | after `CalculateForces` the total force is the sum of drag and gravity alone: the springs cancel |
| Physics.TickMotion | PhysicsHandler.cpp:179-183 | a tick leaves a locked node's position and velocity alone; for an unlocked node, p := p + ts·v with the old v, then v := v + ts·F/m with the stored force |
| Physics.TickKeepsStructure | PhysicsHandler.cpp:174-187 | a tick keeps node count, masses, flags and adjacency, so the next tick is defined too |
| Physics.StepThroughTicks | PhysicsHandler.cpp:198-216 | after a step, each node has the third stage's state except for position, which is p₀ + TS/6·(v₀ + 2v₁ + 2v₂ + v₃) from the start and the three stage velocities |
| Physics.StepFromStages | PhysicsHandler.cpp:201-216 | the per-node buffers of the loop (first positions, accumulated velocities) combine into exactly `Step` |
| Physics.StepKeepsStructure | PhysicsHandler.cpp:195-216 | a full step keeps node count, masses, flags and adjacency |
| Physics.LockedNodeStep | PhysicsHandler.cpp:205-216 | a locked node keeps its velocity and moves by exactly TS·v₀ per step, so a locked node at rest stays put |
| Physics.StepForceBalance | PhysicsHandler.cpp:186 | after a step the stored forces sum to drag plus gravity of the new velocities |
| Physics.TickForceBalance | PhysicsHandler.cpp:174-187 | after any tick the stored forces sum to drag plus gravity of the tick's new velocities |
| PhysicsHandlers.PauseCounting | PhysicsHandler.cpp:192-193 | over k iterations, a zero counter never ticks; a positive counter p ticks min(p, k) times and counts down to max(p − k, 0); a negative counter ticks every time and keeps its value |
| PhysicsHandlers.Toggled | PhysicsHandler.cpp:49-52 | "Pause/Unpause" makes a zero counter negative and any non-zero counter zero |
| PhysicsHandlers.ButtonsEffect | PhysicsHandler.cpp:49-55 | after "Single tick" exactly one of the following iterations ticks and the counter ends at 0; after "Pause/Unpause" from stopped, every iteration ticks |
| PhysicsHandlers.DrawIdsInRange | PhysicsHandler.cpp:105-128 | the de-duplicated connection indices all name existing connections |
| PhysicsHandlers.PhysicsHandler.constructor | PhysicsHandler.h:29-30 | no bodies, counter 0 (PhysicsHandler.h:47), tick size 0.0001, no time passed |
| PhysicsHandlers.PhysicsHandler.AddSoftBody | PhysicsHandler.cpp:144-150 | appends the body, a draw scale of 0.01 and a collapsed flag of true (1), keeping the three vectors the same length, and changes nothing else |
| PhysicsHandlers.PhysicsHandler.PressPauseUnpause | PhysicsHandler.cpp:49-52 | the counter becomes `Toggled` of its old value and nothing else changes |
| PhysicsHandlers.PhysicsHandler.PressSingleTick | PhysicsHandler.cpp:53-55 | the counter becomes 1 and nothing else changes |
| PhysicsHandlers.PhysicsHandler.ResetNodeForces | PhysicsHandler.cpp:156-160 | every node's force becomes −d·v plus its weight (0, −9.8·m, 0), i.e. `ResetForces` of the old nodes; connections stay |
| PhysicsHandlers.PhysicsHandler.AccumulateSprings | PhysicsHandler.cpp:165-169 | the nodes become `ApplySprings` of the old nodes over all connections in order |
| PhysicsHandlers.PhysicsHandler.CalculateForces | PhysicsHandler.cpp:152-172 | the nodes become `CalculateForcesSpec` of the old nodes, which only changes forces and keeps their total at drag plus gravity |
| PhysicsHandlers.PhysicsHandler.TickUpdate | PhysicsHandler.cpp:174-187 | the work copy's nodes become `Tick` of the old ones; connections stay |
| PhysicsHandlers.PhysicsHandler.Snapshot | PhysicsHandler.cpp:198-204 | two fresh buffers hold each node's position and velocity |
| PhysicsHandlers.PhysicsHandler.AccumulateTwice | PhysicsHandler.cpp:206-208 | adds twice each node's velocity to its accumulated velocity |
| PhysicsHandlers.PhysicsHandler.PlaceNodes | PhysicsHandler.cpp:214-216 | each node's position becomes first position + TS/6·(accumulated + current velocity); nothing else changes |
| PhysicsHandlers.PhysicsHandler.StepBody | PhysicsHandler.cpp:195-217 | one body's work copy becomes `Step` of its old nodes |
| PhysicsHandlers.PhysicsHandler.StepOne | PhysicsHandler.cpp:196-218 | body i's work copy becomes `Step` of its old nodes and its draw copy then equals it; every other body is unchanged |
| PhysicsHandlers.PhysicsHandler.StepAll | PhysicsHandler.cpp:195-219 | every registered body is stepped and its draw copy then equals its work copy |
| PhysicsHandlers.PhysicsHandler.Advance | PhysicsHandler.cpp:193-219 | a tick: a positive counter is decremented, −1 stays, time grows by TS, every body is replaced by `Step` of itself and its draw copy equals the new work copy |
| PhysicsHandlers.PhysicsHandler.PhysicsIteration | PhysicsHandler.cpp:189-225 | an iteration ticks exactly when the counter is non-zero; a positive counter is decremented; time grows by TS per tick; a tick steps every body and publishes it; a non-ticking iteration changes no body |
| PhysicsHandlers.PhysicsHandler.DrawConnections | PhysicsHandler.cpp:105-129 | the drawn indices are the strictly increasing set of the adjacency entries of the nodes flagged for drawing; the queue becomes `QueueLines` of the old queue and one segment per index, between the positions of that connection's two nodes, in index order; segments that would take the queue past its 4168-line bound are dropped |
| PhysicsHandlers.PhysicsHandler.DrawBodies | PhysicsHandler.cpp:88-133 | the line queue becomes `QueueLines` of the old queue and `SegmentsOfBodies` of all bodies in order (one segment per drawn connection of each body, clamped at the queue bound); the old queue stays a prefix; every draw copy is unchanged |
| PhysicsHandlers.PhysicsHandler.DrawBody | PhysicsHandler.cpp:95-129 | drawing body i extends the queue from the segments of bodies 0..i−1 to those of bodies 0..i |
| DrawList.InsertPermutes | PhysicsHandler.cpp:112 | one insertion step of the sort adds exactly the new element |
| DrawList.SortAscendingCorrect | PhysicsHandler.cpp:112 | the sorted list is in ascending order and a permutation of the input |
| DrawList.DedupCorrect | PhysicsHandler.cpp:114-123 | compaction of a sorted list gives a strictly increasing list with the same elements, no longer than the input and ending in the same element |
| DrawList.GatheredMembers | PhysicsHandler.cpp:105-107 | an index is gathered exactly when some node flagged for drawing lists it |
| DrawList.DrawIdsCorrect | PhysicsHandler.cpp:105-123 | after sort and compaction the list is strictly increasing and holds exactly the indices listed by flagged nodes |
| DrawList.Compact | PhysicsHandler.cpp:114-123 | the in-place loop leaves the compacted list in the array's prefix and returns its length |
| Drawing.QueueLineBounded | Drawer.cpp:19 | the queue never grows beyond 4168 lines |
| Drawing.QueueLineEffect | Drawer.cpp:18-21 | below 4168 queued lines a line is appended at the end with its endpoints in order; otherwise the queue is unchanged |
| Drawing.QueueLinesEffect | Drawer.cpp:18-21 | queuing several lines keeps the earlier queue as a prefix, stays within 4168 lines, and appends all of them when they fit |
| Drawing.DrawnLines | Drawer.cpp:27-29 | nothing is drawn for an empty queue; otherwise 24 bytes per line are uploaded, clamped to the 100008-byte buffer, and a twelfth of the uploaded bytes are drawn as vertices, so two per line up to the clamp |
| Drawing.GizmoDrawer.constructor | Drawer.cpp:3-16 | a new drawer has an empty queue |
| Drawing.GizmoDrawer.DrawLine | Drawer.cpp:18-21 | the queue becomes `QueueLine` of the old queue |
| Drawing.GizmoDrawer.Queue | Drawer.cpp:23-44 | the draw call is `DrawCallFor` the queue's length and the queue is emptied |
| Shaders.Classify | src/shader.cpp:113-125 | only "end" stops; a selected stage is one of the four shader stages |
| Shaders.NextStage | src/shader.cpp:113-125 | the loop stops exactly on "end"; otherwise the stage either stays or becomes one of the four stages, and a change of stage is the stage the token names |
| Shaders.TokenEndStops | src/shader.cpp:109-111 | a directive token holds no space or newline and runs to the first space, newline or end of text |
| Shaders.LineEndStops | src/shader.cpp:129-131 | a content line holds no newline and runs to the first newline or end of text |
| Shaders.ReadToken | src/shader.cpp:107-111 | the loop returns exactly the token and stops at its terminator |
| Shaders.ReadLine | src/shader.cpp:129-131 | the loop returns exactly the rest of the line and stops at the newline |
| Shaders.ReadDirective | src/shader.cpp:106-126 | reads the token after '@' up to its terminator and returns the next stage by the if-chain on the token, or nothing for "end" |
| Shaders.PreProcess | src/shader.cpp:101-136 | the loop's result is `Run` from position 0 with stage `GL_FALSE`, whose properties are the lemmas below |
| Shaders.RunExtends | src/shader.cpp:129-132 | splitting only appends: every section present before is still present and its old text is a prefix of the new |
| Shaders.RunNewKeys | src/shader.cpp:101-136 | the only sections splitting creates are `GL_FALSE` and the four stages |
| Shaders.ChangedSectionsEndLines | src/shader.cpp:129-133 | every section that splitting creates or extends ends in a newline |
| Shaders.DivergesAtComment | src/shader.cpp:128 | whenever the loop spins, it spins at a position holding "//" |
| Shaders.NoSlashTerminates | src/shader.cpp:128 | text without a '/' is always split; only a comment marker can make the loop spin |
| Shaders.CommentsSpin | src/shader.cpp:128 | a line starting with "//", even right after a directive token, stops the position from advancing, so the loop never ends |
| Shaders.EndDirectiveStops | src/shader.cpp:121-122 | on any text, an `@end` directive at any position finishes the split with the sections built so far |
| Shaders.UnsupportedSkipped | src/shader.cpp:123-126 | on any text, a directive naming no supported stage is skipped up to the end of its token and the current stage is kept |
| Shaders.DirectiveLineRest | src/shader.cpp:106-133 | on any text, a stage directive whose token ends in a space, followed by at least one more character that is neither `@` nor the start of `//`, puts the rest of its line, with a newline, into the new stage's section and continues after that line; a second directive or a comment marker right after the space is read as such instead |
| Shaders.PlainLines | src/shader.cpp:128-134 | on any text, from a line start on where no line starts with `@` or `//`, everything goes into the current section, each line ended by exactly one newline |
| Shaders.PlainText | src/shader.cpp:104-134 | a text with no directive and no comment marker at any line start gives only a `GL_FALSE` section holding the text with one final newline, and no section when empty |
| Shaders.TwoStages | src/shader.cpp:105-134 | example: for a vertex and a fragment stage are split into their own sections, each line followed by one newline, the directives dropped |
| Shaders.TextBeforeDirectives | src/shader.cpp:104 | example: text before any directive goes under `GL_FALSE`, and a last line without a newline still gets one |
| Shaders.RestOfDirectiveLine | src/shader.cpp:109-112 | example: text after a directive token on the same line becomes a line of the newly selected stage |
| Shaders.UnsupportedDirective | src/shader.cpp:123-125 | example: an unknown directive keeps the current stage and is itself dropped |
| Shaders.EndStops | src/shader.cpp:121-122 | example: after `@end` no text reaches any section |
| Shaders.Compile | src/shader.cpp:142-193 | a compute section alone makes a compute program; otherwise a missing vertex or fragment section gives up, and a render program uses the vertex and fragment sections plus the geometry one exactly when it exists |
| Grid.OffsetsEnumerate | main.cpp:50-53 | the 26 offsets are the non-zero vectors of {−1,0,1}³ in strictly increasing xd-yd-zd lexicographic order |
| Grid.OffsetOfOrdinal | main.cpp:50-57 | every non-zero offset appears, at the slot the head counter has reached |
| Grid.IndexBounds | main.cpp:45-47 | an in-grid coordinate's index is below n³ |
| Grid.IndexInjective | main.cpp:56 | distinct in-grid coordinates have distinct indices |
| Grid.NeighbourBounds | main.cpp:54-56 | an entry is (−1, −1) exactly when the offset leaves the grid; otherwise it is (this node's index, the neighbour's index), both below n³ and distinct |
| Grid.Adjacent | main.cpp:54-56 | the entry written for one offset is `NeighbourAt` that offset: (−1, −1) off the grid, otherwise this node's and the neighbour's index |
| Grid.GetAdjacents | main.cpp:44-62 | returns 26 entries, entry k being the neighbour at the k-th non-zero offset |
| Grid.FilterConnections | main.cpp:93-102 | the loop with its inner reverse search computes `Filtered` |
| Grid.FilteredInRange | main.cpp:95 | every kept pair has both indices in [0, n³) |
| Grid.FilteredNoReverse | main.cpp:96-101 | no kept pair is the reverse of an earlier kept pair |
| Grid.FilteredComplete | main.cpp:93-102 | every in-range input pair is kept in one of its two orientations |
| Grid.FilteredSubsequence | main.cpp:93-102 | the kept pairs are a subsequence of the input, in input order |
| Grid.BottomLayerIndex | main.cpp:107 | the index x·n² + z lies in the cube and decodes back to (x, 0, z) |
| Grid.BottomLayerExactly | main.cpp:105-109 | every node of the y = 0 layer is x·n² + z for some in-grid x and z |
| Grid.LockBottomLayer | main.cpp:105-109 | locks exactly the n² nodes with y = 0, keeps earlier locks, and changes nothing else; the cube benchmark's lock loop (benchmark.cpp:199-206, nodes x·m² + z) is the same loop |
| Benchmark.BuildPendulum | benchmark.cpp:257-274 | n positions along `direction`, i·direction for node i; n − 1 connections, connection i joining i and i + 1, all in range; requires n ≥ 1 |
| Benchmark.ChainAdjacencyCorrect | benchmark.cpp:271-273 | in a body built from the chain, node j's adjacency list is [j − 1, j], without the entries that do not exist at the ends |
| Benchmark.ChainPrefixAdjacency | benchmark.cpp:271-273 | after the first n chain pairs, node j's adjacency list is [j − 1, j] restricted to the pairs handled so far |
| Benchmark.BuildSheet | benchmark.cpp:276-330 | m·m nodes at (x·f, 0, z·f), row-major; the connection list is `Sheet(m)`, with 4(m−2)² + 5(m−1) + 5(m−2) + 3 entries for m ≥ 2 and 3 when m = 1, all in range when m ≥ 2; requires m ≥ 1 |
| Benchmark.SheetLength | benchmark.cpp:293-329 | the sheet has exactly 4(m−2)² + 5(m−1) + 5(m−2) + 3 connections for m ≥ 2, and 3 when m = 1 |
| Benchmark.InteriorRowLength | benchmark.cpp:294-300 | one interior row emits four connections per cell |
| Benchmark.InteriorLength | benchmark.cpp:293-302 | the interior emits 4(m−2)² connections |
| Benchmark.EdgeRowsLength | benchmark.cpp:305-314 | the first edge loop emits five connections per step |
| Benchmark.EdgeColumnsLength | benchmark.cpp:315-324 | the second edge loop emits five connections per step |
| Benchmark.SheetInRange | benchmark.cpp:293-329 | for m ≥ 2 every index in the sheet is below m·m |
| Benchmark.CellInRange | benchmark.cpp:295-299 | the four connections of an interior cell stay inside the sheet |
| Benchmark.InteriorRowInRange | benchmark.cpp:294-300 | an interior row stays inside the sheet |
| Benchmark.InteriorInRange | benchmark.cpp:293-302 | the interior stays inside the sheet |
| Benchmark.EdgeRowsInRange | benchmark.cpp:305-314 | the first edge loop stays inside the sheet |
| Benchmark.EdgeColumnsInRange | benchmark.cpp:315-324 | the second edge loop stays inside the sheet |
| Benchmark.CornersInRange | benchmark.cpp:327-329 | the three corner connections stay inside the sheet |
| Benchmark.SingleNodeSheet | benchmark.cpp:326-329 | a 1×1 sheet emits exactly (0,1), (0,1), (0,0); the two (0,1) pairs name the non-existent node 1 |
| Benchmark.InteriorCellAt | benchmark.cpp:293-300 | interior cell (x, z) emits its four connections at positions 4((x−1)(m−2) + z−1) to +3, each starting at x·m + z |
| Benchmark.SheetInterior | benchmark.cpp:293-302 | the nested interior loops emit exactly `Interior` |
| Benchmark.SheetCell | benchmark.cpp:295-299 | one cell appends its four connections (side, two diagonals, front) from index x·m + z, in that order |
| Benchmark.SheetEdgeRows | benchmark.cpp:305-314 | the first edge loop appends exactly `EdgeRows` |
| Benchmark.SheetEdgeColumns | benchmark.cpp:315-324 | the second edge loop appends exactly `EdgeColumns` |
| Benchmark.SheetConnections | benchmark.cpp:291-329 | the interior loop, both edge loops and the three corner pairs append exactly `Sheet(m)`, in that order |
| Benchmark.SheetNodes | benchmark.cpp:285-289 | m·m nodes, node x·m + z at (x·f, 0, z·f) |
| Benchmark.SheetNodeRow | benchmark.cpp:286-288 | one x row appends m nodes in z order |
| Benchmark.CornersOnBoundary | benchmark.cpp:166-170 | the four locked indices are exactly the nodes whose row and column are both first or last |
| Benchmark.LockCorners | benchmark.cpp:166-170 | locks exactly the four corners, keeps earlier locks, changes nothing else |
| GpuBenchmark.Padded | src/benchmark.cpp:41-50 | a 30-slot array holds the list in its prefix and −1 in every other slot |
| GpuBenchmark.FreeSlots | src/benchmark.cpp:532-536 | a new pendulum node starts with all 30 slots −1 |
| GpuBenchmark.FirstFree | src/benchmark.cpp:548 | the scan stops at the first −1 slot; requires that there is one |
| GpuBenchmark.PaddedHasFree | src/benchmark.cpp:549 | a node with fewer than 30 entries has a free slot, so the scan stops inside the array |
| GpuBenchmark.PaddedPush | src/benchmark.cpp:548-550 | the first free slot is just after the entries, and writing there appends the value |
| GpuBenchmark.RecordSlot | src/benchmark.cpp:548-554 | a scan and write on a node with a free slot appends the connection index to its list |
| GpuBenchmark.RecordLink | src/benchmark.cpp:540-555 | after link i, nodes i and i + 1 hold their chain adjacency and later nodes stay empty |
| GpuBenchmark.BuildPendulum | src/benchmark.cpp:515-556 | n nodes at i·direction, at rest, with mass fraction and unlocked; for n ≥ 2 node 0 holds [0], node i holds [i−1, i], the last node [n−2]; for n = 1 every slot of the single node is −1; all other slots −1; n − 1 connections (i, i + 1) |
| GpuBenchmark.GpuEdgeRowsLength | src/benchmark.cpp:610-615 | the first edge loop gathers three pairs per step |
| GpuBenchmark.GpuEdgeColumnsLength | src/benchmark.cpp:616-622 | the second edge loop gathers four pairs per step |
| GpuBenchmark.GpuSheetLength | src/benchmark.cpp:580-634 | the sheet has exactly 4(m−2)² + 3(m−1) + 4(m−2) + 3 connections for m ≥ 2, and 3 when m = 1 |
| GpuBenchmark.GpuEdgeRowsInRange | src/benchmark.cpp:610-615 | the first edge loop stays inside the sheet |
| GpuBenchmark.GpuEdgeColumnsInRange | src/benchmark.cpp:616-622 | the second edge loop stays inside the sheet |
| GpuBenchmark.GpuSheetInRange | src/benchmark.cpp:580-634 | for m ≥ 2 every index in the sheet is below m·m |
| GpuBenchmark.GpuInterior | src/benchmark.cpp:580-606 | the interior loops emit the four connections of each cell, as on the CPU sheet |
| GpuBenchmark.AppendCell | src/benchmark.cpp:582-593 | the four offsets of `cons`, each paired with the cell index, are appended in array order: the same four connections as a CPU cell |
| GpuBenchmark.GpuRowPairs | src/benchmark.cpp:610-615 | the first edge loop gathers exactly `GpuEdgeRows` |
| GpuBenchmark.GpuColumnPairs | src/benchmark.cpp:616-622 | the second edge loop appends exactly `GpuEdgeColumns` |
| GpuBenchmark.GpuEdgePairs | src/benchmark.cpp:607-627 | the gathered edge pairs are the two edge loops followed by the three corners |
| GpuBenchmark.EmitPairs | src/benchmark.cpp:628-634 | the edge pairs are appended to the connections in order |
| GpuBenchmark.BuildSheet | src/benchmark.cpp:558-645 | the connection list is `GpuSheet(m)`, with 4(m−2)² + 3(m−1) + 4(m−2) + 3 entries for m ≥ 2 and 3 when m = 1, all below m·m when m ≥ 2; requires m ≥ 1 |
| GpuMain.VoidData.constructor | src/main.cpp:154-158 | head starts at start, end is start + size, nothing stored, no labels |
| GpuMain.VoidData.AddData | src/main.cpp:165-169 | data that would pass end changes nothing; otherwise it is stored at offset head − start and head advances by its size; start ≤ head ≤ end always holds |
| GpuMain.VoidData.Begin | src/main.cpp:171-173 | records head − start under the label, replacing an earlier entry, without moving head |
| GpuMain.PackNodes | src/main.cpp:275-278 | n nodes fit exactly into n·160 bytes: node k is stored at offset 160·k and head ends at end |
| GpuMain.MeshToFloats | src/main.cpp:126-148 | ⌈byteLength/2⌉ indices are read, and six floats are emitted per index: the position triple and then the normal triple of that vertex |
| GpuMain.LockBottomLayerGpu | src/main.cpp:265-273 | locks exactly the n² nodes of the y = 0 layer, keeps earlier locks, and changes nothing else |
| GpuMain.CounterFrames | src/main.cpp:335-349 | over a number of frames, a zero counter never ticks; a positive counter d ticks min(d, frames) frames and stops at 0; a negative counter ticks every frame and keeps decreasing |
| GpuMain.TickControl.constructor | src/main.cpp:309-319 | the counter starts at 0, one tick per frame, no ticks counted, no time simulated |
| GpuMain.TickControl.Frame | src/main.cpp:335-350 | a frame with a non-zero counter decrements it and adds `ticks_per_frame` ticks (2³² + the value when it is negative) to the 64-bit tick count and TS per tick to the simulated time; a zero counter changes nothing |
| GpuMain.TickControl.DispatchTicks | src/main.cpp:344-349 | the tick loop runs `FrameTicks` times, wrapping the tick count at 2⁶⁴ and adding that many TS to the simulated time |
| GpuMain.ElapsedIsProduct | src/main.cpp:348 | adding TS once per tick, i ticks add i·TS |
| GpuMain.TickControl.PressRun | src/main.cpp:390 | "Run" sets the counter to −1 and nothing else |
| GpuMain.TickControl.PressStop | src/main.cpp:391 | "Stop" sets the counter to 0 and nothing else |
| GpuMain.TickControl.PressSingleTick | src/main.cpp:392 | "Single Tick" sets the counter to 1 and nothing else |

## Left out

- Threads, mutexes, atomics and `Join`: calls are sequential, and `CopyOver`/`CopyBack` are their effect after the copy thread finishes.
- The 7 ms sleep of a paused `DoPhysics` and the `stop` flag: timing and the thread's exit are not modelled; `PhysicsIteration` is one pass of the loop.
- `CalculateEnergy` and the energy compute shader: floating-point diagnostics only.
- `DrawUI` apart from the two pause buttons: ImGui widgets, the tick-size input and the per-node checkboxes (their effect is `CopyBack`).
- Node meshes in `DrawBodies` (`DrawInstance` with the draw scales): rendering only; the connection drawing is modelled.
- Floating-point rounding: reals stand for `float`/`double`; square roots sit behind the `Geometry` functions.
- The `w` component of the `vec4` positions and velocities in src/benchmark.cpp: always 0 there.
- The rest length of each connection (`glm::length` of the two positions): a `Geometry` function, not computed.
- The integer width of `uint pos` in `PreProcess` and of the other indices: texts and graphs beyond 2³² elements are not considered.
- `GenerateNodes` and cube_generation.inl are not part of this model; so neither is `buildCube` nor the loop in main.cpp that gathers positions and `GetAdjacents` output for every grid point (lines 84-92).
- The side length m = ⌊√node_count⌋ or ⌊∛node_count⌋ is a parameter of the sheet and cube code, since it comes from floating-point roots.
- The pendulum direction, sheet spacing and mass fraction are parameters, since they come from `cos`, `sin` and float division.
- PhysicsHandlers.PhysicsHandler.DrawBodies: takes segment end points from the draw copy's node positions, while the C++ connections hold pointers into the work copy's nodes (SoftBody.cpp:20-21, read at PhysicsHandler.cpp:126-127); the two agree after `CopyOver`, which ends every tick, and a draw that interleaves with a running tick is a concurrency effect not modelled.
- Benchmark.BuildPendulum: requires n ≥ 1. `node_count` is a `size_t` set from `ImGui::InputInt` (benchmark.cpp:75-77) and can be 0; then `node_count - 1` wraps to SIZE_MAX and `connections.reserve` at benchmark.cpp:270 throws `std::length_error`.
- Benchmark.BuildSheet: requires m ≥ 1. With m = 0, `node_count_1D - 1` wraps to SIZE_MAX, so the loops at benchmark.cpp:293-300 run far past the empty node vector until memory is exhausted.
- GpuBenchmark.BuildPendulum: requires n ≥ 1. With `node_count` = 0, `connections.reserve(node_count - 1)` at src/benchmark.cpp:539 asks for SIZE_MAX elements and throws `std::length_error`.
- GpuBenchmark.BuildSheet: requires m ≥ 1. With m = 0 the loop bound `node_count_1D - 1` wraps and src/benchmark.cpp:585-587 index the empty node vector, which is undefined behaviour.
- GpuBenchmark.BuildSheet: does not model the adjacency slots of the sheet nodes, because src/benchmark.cpp:569-574 never initialises their `connections` array, so the slot scans at 596-602 and 637-643 read indeterminate values.
- GpuBenchmark.FirstFree: requires a free slot, because the scan at src/benchmark.cpp:548 has no bound and only checks against 30 after it stops; for the pendulum a free slot is proved to exist, so a full node1 skipping node2 cannot arise there.
- GpuMain.PackNodes: the base address comes from `malloc` and is a parameter; the heap and `free` are not modelled.
- GpuMain.TickControl.Frame: `doTick` is an unbounded integer; after about 2³¹ frames of "Run" the C++ `int` decrement overflows, which is undefined behaviour there and is not modelled.
- `ImGui::InputInt` for `ticks_per_frame`, the GL dispatch and draw calls, shader compilation status and linking, and tinygltf loading: library calls outside the model.
- Shaders.Compile: models only which sections are used; GL object creation, compile errors and program linking are left out.
- PhysicsHandlers.PhysicsHandler.StepAll: requires that no two bodies share a representation object; the C++ code never shares them (every caller registers one freshly built body, main.cpp:110, benchmark.cpp:139-140), but nothing in it forbids registering the same body twice.
- PhysicsHandlers.PhysicsHandler.StepOne: requires the same distinctness of the bodies, for the same reason.
- PhysicsHandlers.PhysicsHandler.PhysicsIteration: requires the same distinctness of the bodies, for the same reason.
- PhysicsHandlers.PhysicsHandler.Advance: requires the same distinctness of the bodies, for the same reason.
- The time passed and the node masses are used as given: a zero mass on an unlocked node divides by zero in C++; the model requires every unlocked node to have non-zero mass before a tick.
