/** The line queue of the gizmo renderer (Drawer.cpp): lines are queued per
    frame into a vector and uploaded, clamped to the GPU buffer's size,
    when the renderer's queued draw call runs. */
module Drawing {
  import opened Vectors
  import opened Options

  /** The size of the line buffer allocated on the GPU, in bytes. */
  const BufferBytes: nat := 100008
  /** One line: two endpoints of three 4-byte floats. */
  const LineBytes: nat := 24
  /** One vertex: three 4-byte floats. */
  const VertexBytes: nat := 12
  /** `DrawLine` refuses a line once more than this many are queued. */
  const AcceptLimit: nat := BufferBytes / LineBytes

  type Line = (Vec3, Vec3)

  /** What one run of the queued draw call sends: the bytes uploaded and
      the number of vertices drawn as `GL_LINES`. */
  datatype DrawCall = DrawCall(bytes: nat, vertices: nat)

  /** The queue after `DrawLine(l)`. */
  function QueueLine(queue: seq<Line>, l: Line): seq<Line> {
    if |queue| > AcceptLimit then queue else queue + [l]
  }

  /** The queue after `DrawLine` for each of `lines`, in order. */
  function QueueLines(queue: seq<Line>, lines: seq<Line>): seq<Line>
    decreases |lines|
  {
    if lines == [] then queue
    else QueueLine(QueueLines(queue, lines[..|lines| - 1]), lines[|lines| - 1])
  }

  /** The draw call made for a queue of `count` lines, or none. */
  function DrawCallFor(count: nat): Option<DrawCall> {
    var bytes := count * LineBytes;
    if bytes == 0 then None
    else
      var clamped := if bytes < BufferBytes then bytes else BufferBytes;
      Some(DrawCall(clamped, clamped / VertexBytes))
  }

  /** A queue of at most 4168 lines stays so after any `DrawLine`. */
  lemma QueueLineBounded(queue: seq<Line>, l: Line)
    requires |queue| <= AcceptLimit + 1
    ensures |QueueLine(queue, l)| <= AcceptLimit + 1
  {
  }

  /** `DrawLine` either appends the line at the end, endpoints in order and
      earlier entries untouched (while at most 4167 are queued), or changes
      nothing. */
  lemma QueueLineEffect(queue: seq<Line>, p1: Vec3, p2: Vec3)
    ensures |queue| <= 4167 ==> QueueLine(queue, (p1, p2)) == queue + [(p1, p2)]
    ensures |queue| > 4167 ==> QueueLine(queue, (p1, p2)) == queue
  {
  }

  /** Any run of `DrawLine` calls keeps the old queue as a prefix, queues
      all the lines when they fit, and never exceeds 4168 entries. */
  lemma {:induction false} QueueLinesEffect(queue: seq<Line>, lines: seq<Line>)
    requires |queue| <= AcceptLimit + 1
    ensures |QueueLines(queue, lines)| <= AcceptLimit + 1
    ensures queue <= QueueLines(queue, lines)
    ensures |queue| + |lines| <= AcceptLimit + 1 ==> QueueLines(queue, lines) == queue + lines
    decreases |lines|
  {
    if lines != [] {
      var init := lines[..|lines| - 1];
      QueueLinesEffect(queue, init);
      if |queue| + |lines| <= AcceptLimit + 1 {
        assert queue + init + [lines[|lines| - 1]] == queue + lines;
      }
    }
  }

  /** Queuing two runs of lines one after the other is queuing the
      concatenated run. */
  lemma {:induction false} QueueLinesConcat(queue: seq<Line>, a: seq<Line>, b: seq<Line>)
    ensures QueueLines(QueueLines(queue, a), b) == QueueLines(queue, a + b)
    decreases |b|
  {
    if b != [] {
      QueueLinesConcat(queue, a, b[..|b| - 1]);
      assert (a + b)[..|a + b| - 1] == a + b[..|b| - 1];
    } else {
      assert a + b == a;
    }
  }

  /** Nothing is drawn for an empty queue; otherwise the upload is 24 bytes
      per line clamped to the buffer, and two vertices are drawn per line
      for up to 4167 lines. A full queue of 4168 lines is accepted but only
      4167 of its lines are drawn. */
  lemma DrawnLines(count: nat)
    requires count <= AcceptLimit + 1
    ensures DrawCallFor(count).None? <==> count == 0
    ensures count > 0 ==> DrawCallFor(count).value.bytes <= BufferBytes
    ensures 0 < count <= AcceptLimit ==> DrawCallFor(count) == Some(DrawCall(24 * count, 2 * count))
    ensures count == AcceptLimit + 1 ==> DrawCallFor(count) == Some(DrawCall(BufferBytes, 2 * (count - 1)))
  {
  }

  class GizmoDrawer {
    /** `m_LineDraws` */
    var lineDraws: seq<Line>

    ghost predicate Valid()
      reads this
    {
      |lineDraws| <= AcceptLimit + 1
    }

    constructor ()
      ensures Valid() && lineDraws == []
    {
      lineDraws := [];
    }

    /** `DrawLine`: queues the segment unless the queue is already past
        the buffer's capacity. */
    method DrawLine(point1: Vec3, point2: Vec3)
      requires Valid()
      modifies this
      ensures Valid()
      ensures lineDraws == QueueLine(old(lineDraws), (point1, point2))
    {
      if |lineDraws| > BufferBytes / LineBytes {
        return;
      }
      lineDraws := lineDraws + [(point1, point2)];
    }

    /** The draw call queued by `Queue`, run once: computes the clamped
        upload size, reports the draw and empties the queue; an empty queue
        returns early. */
    method Queue() returns (call: Option<DrawCall>)
      requires Valid()
      modifies this
      ensures Valid() && lineDraws == []
      ensures call == DrawCallFor(|old(lineDraws)|)
    {
      var drawsize := |lineDraws| * 6 * 4;
      if drawsize == 0 {
        return None;
      }
      drawsize := if drawsize < BufferBytes then drawsize else BufferBytes;
      call := Some(DrawCall(drawsize, drawsize / VertexBytes));
      lineDraws := [];
    }
  }
}
