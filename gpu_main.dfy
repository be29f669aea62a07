/** The GPU front end (src/main.cpp): the bump buffer the nodes are packed
    into, the mesh index gather, the bottom-layer lock loop and the
    per-frame tick counter. */
module GpuMain {
  import opened GpuBenchmark
  import opened Grid
  import Arithmetic

  // ---------------------------------------------------------------------
  // VoidData: a bump allocator over a fixed byte range

  /** Size in bytes of one GPU node: two four-vectors (16 bytes each), the
      mass (4), 30 slots (120) and the lock flag (4). */
  const NodeSize := 160

  /** A byte buffer [start, end) filled front to back. `stored` records each
      value written, with its offset from `start`. The address `start` is
      whatever the allocator returns and is a parameter here. */
  class VoidData<T> {
    const start: nat
    const end: nat
    var head: nat
    var stored: seq<(nat, T)>
    var labels: map<string, nat>

    /** The head stays in the buffer. */
    ghost predicate Valid()
      reads this
    {
      start <= head <= end
    }

    /** `VoidData(size)`: an empty buffer of `size` bytes at `base`. */
    constructor(base: nat, size: nat)
      ensures Valid()
      ensures start == base && end == base + size && head == start
      ensures stored == [] && labels == map[]
    {
      start := base;
      end := base + size;
      head := base;
      stored := [];
      labels := map[];
    }

    /** `addData`: writes `data`, of `size` bytes, at the head and moves the
        head past it, unless it would run past the end, in which case
        nothing changes. */
    method AddData(data: T, size: nat)
      requires Valid()
      modifies this
      ensures Valid()
      ensures labels == old(labels)
      ensures old(head) + size > end ==> head == old(head) && stored == old(stored)
      ensures old(head) + size <= end ==>
        head == old(head) + size && stored == old(stored) + [(old(head) - start, data)]
    {
      if head + size > end {
        return;
      }
      stored := stored + [(head - start, data)];
      head := head + size;
    }

    /** `begin`: records the current offset under `name`, replacing any
        earlier entry; the head does not move. */
    method Begin(name: string)
      requires Valid()
      modifies this
      ensures Valid()
      ensures labels == old(labels)[name := old(head) - start]
      ensures head == old(head) && stored == old(stored)
    {
      labels := labels[name := head - start];
    }
  }

  /** The node upload of main: a buffer of exactly |nodes| * 160 bytes,
      then every node added in order. Every write fits, node k lands at
      offset 160k, and the head ends at the end. */
  method PackNodes(base: nat, nodes: seq<GpuNode>) returns (buffer: VoidData<GpuNode>)
    ensures fresh(buffer) && buffer.Valid()
    ensures buffer.head == buffer.end && buffer.start == base
    ensures |buffer.stored| == |nodes|
    ensures forall k :: 0 <= k < |nodes| ==> buffer.stored[k] == (NodeSize * k, nodes[k])
  {
    buffer := new VoidData(base, NodeSize * |nodes|);
    for k := 0 to |nodes|
      invariant buffer.Valid() && buffer.start == base && buffer.end == base + NodeSize * |nodes|
      invariant buffer.head == base + NodeSize * k
      invariant |buffer.stored| == k
      invariant forall j :: 0 <= j < k ==> buffer.stored[j] == (NodeSize * j, nodes[j])
    {
      buffer.AddData(nodes[k], NodeSize);
    }
  }

  // ---------------------------------------------------------------------
  // MeshToFloats

  /** Number of indices the gather loop visits: it steps a 2-byte pointer
      while it is below `byteLength` bytes past the start. */
  function IndexCount(byteLength: nat): nat {
    (byteLength + 1) / 2
  }

  /** Every visited index names a vertex with three position and three
      normal floats. */
  ghost predicate GatherInRange(indices: seq<nat>, positions: seq<real>, normals: seq<real>, count: nat) {
    count <= |indices| &&
    forall k :: 0 <= k < count ==> 3 * indices[k] + 2 < |positions| && 3 * indices[k] + 2 < |normals|
  }

  /** The six floats of vertex i: its position, then its normal. */
  function VertexFloats(positions: seq<real>, normals: seq<real>, i: nat): seq<real>
    requires 3 * i + 2 < |positions| && 3 * i + 2 < |normals|
  {
    positions[3 * i..3 * i + 3] + normals[3 * i..3 * i + 3]
  }

  /** `MeshToFloats`: for each visited index, the vertex's three position
      floats followed by its three normal floats. */
  method MeshToFloats(indices: seq<nat>, byteLength: nat, positions: seq<real>, normals: seq<real>)
    returns (floats: seq<real>)
    requires GatherInRange(indices, positions, normals, IndexCount(byteLength))
    ensures |floats| == 6 * IndexCount(byteLength)
    ensures forall k :: 0 <= k < IndexCount(byteLength) ==>
      floats[6 * k..6 * k + 6] == VertexFloats(positions, normals, indices[k])
  {
    floats := [];
    var offset := 0;
    var k := 0;
    while offset < byteLength
      invariant offset == 2 * k && k <= IndexCount(byteLength)
      invariant |floats| == 6 * k
      invariant forall k' :: 0 <= k' < k ==>
        floats[6 * k'..6 * k' + 6] == VertexFloats(positions, normals, indices[k'])
      decreases byteLength - offset
    {
      var i := indices[k];
      ghost var before := floats;
      floats := floats + [positions[i * 3]];
      floats := floats + [positions[i * 3 + 1]];
      floats := floats + [positions[i * 3 + 2]];
      floats := floats + [normals[i * 3]];
      floats := floats + [normals[i * 3 + 1]];
      floats := floats + [normals[i * 3 + 2]];
      assert floats == before + VertexFloats(positions, normals, i);
      forall k' | 0 <= k' <= k
        ensures floats[6 * k'..6 * k' + 6] == VertexFloats(positions, normals, indices[k'])
      {
        assert floats[6 * k'..6 * k' + 6] == (if k' < k then before[6 * k'..6 * k' + 6] else VertexFloats(positions, normals, i));
      }
      offset := offset + 2;
      k := k + 1;
    }
  }

  // ---------------------------------------------------------------------
  // The lock loop

  /** The lock loop of main: for every x and z, the node at x*n*n + z
      (y = 0) gets `locked` set; every other field and node stays as it was. */
  method LockBottomLayerGpu(before: seq<GpuNode>, n: nat) returns (nodes: seq<GpuNode>)
    requires n > 0 && |before| == n * n * n
    ensures |nodes| == |before|
    ensures forall i :: 0 <= i < |nodes| ==>
      nodes[i] == before[i].(locked := before[i].locked || InBottomLayer(i, n))
  {
    nodes := before;
    for x := 0 to n
      invariant |nodes| == |before|
      invariant forall i :: 0 <= i < |nodes| ==>
        nodes[i] == before[i].(locked := before[i].locked || LockedBefore(i, n, x, 0))
    {
      for z := 0 to n
        invariant |nodes| == |before|
        invariant forall i :: 0 <= i < |nodes| ==>
          nodes[i] == before[i].(locked := before[i].locked || LockedBefore(i, n, x, z))
      {
        BottomLayerIndex(x, z, n);
        var y := 0;
        var index := x * n * n + y * n + z;
        assert index == Index(x, 0, z, n);
        nodes := nodes[index := nodes[index].(locked := true)];
        forall i | 0 <= i < |nodes|
          ensures LockedBefore(i, n, x, z + 1) == (LockedBefore(i, n, x, z) || i == index)
        {
          LockStep(i, n, x, z);
        }
      }
    }
    forall i | 0 <= i < |nodes|
      ensures LockedBefore(i, n, n, 0) == InBottomLayer(i, n)
    {
      CubeSlab(i, n);
    }
  }

  // ---------------------------------------------------------------------
  // The frame loop's tick counter

  /** 2^64: the tick count is a 64-bit unsigned counter. */
  const TickCountRange := 0x1_0000_0000_0000_0000

  /** The loop `for (uint i = 0; i < ticks_per_frame; i++)` compares an
      unsigned counter with the signed setting, so a negative setting counts
      as 2^32 plus the setting. */
  function FrameTicks(ticksPerFrame: int): nat
    requires -0x8000_0000 <= ticksPerFrame < 0x8000_0000
  {
    if ticksPerFrame >= 0 then ticksPerFrame else ticksPerFrame + 0x1_0000_0000
  }

  /** The counter after one frame: a non-zero value is decremented,
      whatever its sign. */
  function CounterStep(doTick: int): int {
    if doTick != 0 then doTick - 1 else 0
  }

  /** The counter after `frames` frames. */
  function CounterAfter(doTick: int, frames: nat): int
    decreases frames
  {
    if frames == 0 then doTick else CounterAfter(CounterStep(doTick), frames - 1)
  }

  /** Number of frames among the next `frames` that dispatch ticks. */
  function TickingFrames(doTick: int, frames: nat): nat
    decreases frames
  {
    if frames == 0 then 0
    else (if doTick != 0 then 1 else 0) + TickingFrames(CounterStep(doTick), frames - 1)
  }

  /** "Stop" (0) never ticks; "Single Tick" (1) and any positive d tick the
      next min(d, k) frames and end at max(d - k, 0); "Run" (-1) and any
      negative d tick every frame, the counter falling by one per frame. */
  lemma {:induction false} CounterFrames(doTick: int, frames: nat)
    ensures doTick == 0 ==> TickingFrames(doTick, frames) == 0 && CounterAfter(doTick, frames) == 0
    ensures doTick > 0 ==>
      TickingFrames(doTick, frames) == (if doTick < frames then doTick else frames) &&
      CounterAfter(doTick, frames) == (if doTick < frames then 0 else doTick - frames)
    ensures doTick < 0 ==> TickingFrames(doTick, frames) == frames && CounterAfter(doTick, frames) == doTick - frames
    decreases frames
  {
    if frames > 0 {
      CounterFrames(CounterStep(doTick), frames - 1);
    }
  }

  /** The time `i` ticks of length `ts` add, one tick at a time. */
  function Elapsed(i: nat, ts: real): real {
    if i == 0 then 0.0 else Elapsed(i - 1, ts) + ts
  }

  /** Adding `ts` once per tick adds `i * ts`. */
  lemma {:induction false} ElapsedIsProduct(i: nat, ts: real)
    ensures Elapsed(i, ts) == i as real * ts
  {
    if i > 0 {
      ElapsedIsProduct(i - 1, ts);
      assert i as real * ts == (i - 1) as real * ts + ts;
    }
  }

  /** Adding one to a wrapped counter wraps the sum. */
  lemma WrapStep(a: nat, i: nat, r: nat)
    requires r > 0
    ensures ((a + i) % r + 1) % r == (a + i + 1) % r
  {
    var q := (a + i) / r;
    var t := (a + i) % r;
    assert a + i + 1 == q * r + (t + 1);
    if t + 1 < r {
      Arithmetic.DivModUnique(a + i + 1, r, q, t + 1);
    } else {
      assert a + i + 1 == (q + 1) * r;
      Arithmetic.DivModUnique(a + i + 1, r, q + 1, 0);
    }
  }

  /** The frame loop's simulation controls: the tick counter `doTick`, the
      ticks dispatched per frame, and the statistics. */
  class TickControl {
    var doTick: int
    var ticksPerFrame: int
    var tickCount: nat
    var simTime: real

    /** `tick_count` is a 64-bit and `ticks_per_frame` a 32-bit value. */
    ghost predicate Valid()
      reads this
    {
      tickCount < TickCountRange && -0x8000_0000 <= ticksPerFrame < 0x8000_0000
    }

    /** The initial state: stopped, one tick per frame, no ticks so far. */
    constructor()
      ensures Valid()
      ensures doTick == 0 && ticksPerFrame == 1 && tickCount == 0 && simTime == 0.0
    {
      doTick := 0;
      ticksPerFrame := 1;
      tickCount := 0;
      simTime := 0.0;
    }

    /** The computing step of one frame: with a non-zero counter, the
        counter is decremented and the frame dispatches its ticks, each
        adding one to `tickCount` (wrapping at 2^64) and `ts` to `simTime`. */
    method Frame(ts: real)
      requires Valid()
      modifies this
      ensures Valid()
      ensures doTick == CounterStep(old(doTick)) && ticksPerFrame == old(ticksPerFrame)
      ensures old(doTick) == 0 ==> tickCount == old(tickCount) && simTime == old(simTime)
      ensures old(doTick) != 0 ==>
        tickCount == (old(tickCount) + FrameTicks(old(ticksPerFrame))) % TickCountRange &&
        simTime == old(simTime) + FrameTicks(old(ticksPerFrame)) as real * ts
    {
      if doTick != 0 {
        doTick := doTick - 1;
        DispatchTicks(ts);
      }
    }

    /** The tick loop of a running frame: `FrameTicks(ticksPerFrame)` ticks,
        each adding one to `tickCount` (wrapping at 2^64) and `ts` to
        `simTime`. */
    method DispatchTicks(ts: real)
      requires Valid()
      modifies this
      ensures Valid() && doTick == old(doTick) && ticksPerFrame == old(ticksPerFrame)
      ensures tickCount == (old(tickCount) + FrameTicks(ticksPerFrame)) % TickCountRange
      ensures simTime == old(simTime) + FrameTicks(ticksPerFrame) as real * ts
    {
      var i := 0;
      while i < FrameTicks(ticksPerFrame)
        invariant Valid() && 0 <= i <= FrameTicks(ticksPerFrame)
        invariant ticksPerFrame == old(ticksPerFrame) && doTick == old(doTick)
        invariant tickCount == (old(tickCount) + i) % TickCountRange
        invariant simTime == old(simTime) + Elapsed(i, ts)
      {
        WrapStep(old(tickCount), i, TickCountRange);
        tickCount := (tickCount + 1) % TickCountRange;
        simTime := simTime + ts;
        i := i + 1;
      }
      ElapsedIsProduct(i, ts);
    }

    /** The "Run" button: tick every frame. */
    method PressRun()
      modifies this
      ensures doTick == -1
      ensures ticksPerFrame == old(ticksPerFrame) && tickCount == old(tickCount) && simTime == old(simTime)
    {
      doTick := -1;
    }

    /** The "Stop" button. */
    method PressStop()
      modifies this
      ensures doTick == 0
      ensures ticksPerFrame == old(ticksPerFrame) && tickCount == old(tickCount) && simTime == old(simTime)
    {
      doTick := 0;
    }

    /** The "Single Tick" button: tick for exactly one frame. */
    method PressSingleTick()
      modifies this
      ensures doTick == 1
      ensures ticksPerFrame == old(ticksPerFrame) && tickCount == old(tickCount) && simTime == old(simTime)
    {
      doTick := 1;
    }
  }
}
