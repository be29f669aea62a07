/** The connection list DrawBodies draws for one body (PhysicsHandler.cpp):
    the adjacency lists of the nodes marked for drawing, concatenated,
    sorted, and compacted so each connection appears once. Connections
    are identified by index; in the source they are addresses into one
    contiguous vector, which order the same way. */
module DrawList {
  import opened Nodes

  /** Non-decreasing. */
  ghost predicate Sorted(s: seq<nat>) {
    forall a, b :: 0 <= a < b < |s| ==> s[a] <= s[b]
  }

  /** Strictly increasing, hence free of repeats. */
  ghost predicate StrictlyIncreasing(s: seq<nat>) {
    forall a, b :: 0 <= a < b < |s| ==> s[a] < s[b]
  }

  /** The gather loop: the adjacency lists of the nodes whose
      `drawconnections` flag is set, in node order. */
  function Gathered(nodes: seq<NodeValue>): seq<nat>
    decreases |nodes|
  {
    if nodes == [] then []
    else
      var n := nodes[|nodes| - 1];
      Gathered(nodes[..|nodes| - 1]) + (if n.drawconnections then n.connections else [])
  }

  /** Inserts `x` into a sorted sequence after the elements smaller than it. */
  function Insert(s: seq<nat>, x: nat): seq<nat>
    decreases |s|
  {
    if s == [] || x <= s[0] then [x] + s else [s[0]] + Insert(s[1..], x)
  }

  /** The effect of `std::sort`: the same elements in ascending order. */
  function SortAscending(s: seq<nat>): seq<nat>
    decreases |s|
  {
    if s == [] then [] else Insert(SortAscending(s[..|s| - 1]), s[|s| - 1])
  }

  /** The compaction loop: walks the sequence keeping an element when it
      differs from the last one kept (initially none). */
  function Dedup(s: seq<nat>): seq<nat>
    decreases |s|
  {
    if s == [] then []
    else
      var d := Dedup(s[..|s| - 1]);
      if d != [] && d[|d| - 1] == s[|s| - 1] then d else d + [s[|s| - 1]]
  }

  /** The connection indices DrawBodies draws for a body's nodes. */
  function DrawIds(nodes: seq<NodeValue>): seq<nat> {
    Dedup(SortAscending(Gathered(nodes)))
  }

  /** Inserting adds exactly one occurrence of `x`. */
  lemma {:induction false} InsertPermutes(s: seq<nat>, x: nat)
    ensures multiset(Insert(s, x)) == multiset(s) + multiset{x}
    decreases |s|
  {
    if s != [] && x > s[0] {
      InsertPermutes(s[1..], x);
      assert s == [s[0]] + s[1..];
    }
  }

  /** A sorted sequence stays sorted behind an element no larger than any of its own. */
  lemma SortedCons(a: nat, r: seq<nat>)
    requires Sorted(r)
    requires forall k :: 0 <= k < |r| ==> a <= r[k]
    ensures Sorted([a] + r)
  {
  }

  lemma {:induction false} InsertSorted(s: seq<nat>, x: nat)
    requires Sorted(s)
    ensures Sorted(Insert(s, x))
    decreases |s|
  {
    if s != [] && x > s[0] {
      var t := s[1..];
      var r := Insert(t, x);
      InsertSorted(t, x);
      InsertPermutes(t, x);
      forall k | 0 <= k < |r|
        ensures s[0] <= r[k]
      {
        assert r[k] in multiset(r);
        if r[k] != x {
          assert r[k] in multiset(t);
          var m :| 0 <= m < |t| && t[m] == r[k];
          assert s[m + 1] == r[k];
        }
      }
      SortedCons(s[0], r);
    } else {
      SortedCons(x, s);
    }
  }

  /** `std::sort` yields an ascending permutation of its input. */
  lemma {:induction false} SortAscendingCorrect(s: seq<nat>)
    ensures Sorted(SortAscending(s))
    ensures multiset(SortAscending(s)) == multiset(s)
    decreases |s|
  {
    if s != [] {
      var init := s[..|s| - 1];
      SortAscendingCorrect(init);
      InsertSorted(SortAscending(init), s[|s| - 1]);
      InsertPermutes(SortAscending(init), s[|s| - 1]);
      assert s == init + [s[|s| - 1]];
    }
  }

  /** Compacting a sorted sequence leaves it strictly increasing, with the
      same elements, ending with the input's last element. */
  lemma {:induction false} DedupCorrect(s: seq<nat>)
    requires Sorted(s)
    ensures StrictlyIncreasing(Dedup(s))
    ensures forall x :: x in Dedup(s) <==> x in s
    ensures s != [] ==> Dedup(s) != [] && Dedup(s)[|Dedup(s)| - 1] == s[|s| - 1]
    ensures |Dedup(s)| <= |s|
    decreases |s|
  {
    if s != [] {
      var init := s[..|s| - 1];
      DedupCorrect(init);
      assert s == init + [s[|s| - 1]];
    }
  }

  /** A connection index is gathered exactly when some node marked for
      drawing lists it. */
  lemma {:induction false} GatheredMembers(nodes: seq<NodeValue>, x: nat)
    ensures x in Gathered(nodes) <==>
      exists j :: 0 <= j < |nodes| && nodes[j].drawconnections && x in nodes[j].connections
    decreases |nodes|
  {
    if nodes != [] {
      var init := nodes[..|nodes| - 1];
      GatheredMembers(init, x);
      if x in Gathered(nodes) && x !in Gathered(init) {
        assert nodes[|nodes| - 1].drawconnections && x in nodes[|nodes| - 1].connections;
      }
      if exists j :: 0 <= j < |nodes| && nodes[j].drawconnections && x in nodes[j].connections {
        var j :| 0 <= j < |nodes| && nodes[j].drawconnections && x in nodes[j].connections;
        if j < |nodes| - 1 {
          assert init[j] == nodes[j];
        }
      }
    }
  }

  /** After sort and compaction the drawn list is strictly increasing and
      holds exactly the connections listed by some node marked for drawing. */
  lemma DrawIdsCorrect(nodes: seq<NodeValue>)
    ensures StrictlyIncreasing(DrawIds(nodes))
    ensures forall x :: x in DrawIds(nodes) <==>
      exists j :: 0 <= j < |nodes| && nodes[j].drawconnections && x in nodes[j].connections
  {
    var g := Gathered(nodes);
    SortAscendingCorrect(g);
    DedupCorrect(SortAscending(g));
    forall x ensures x in DrawIds(nodes) <==> x in g {
      assert x in SortAscending(g) <==> x in multiset(SortAscending(g));
      assert x in g <==> x in multiset(g);
    }
    forall x ensures x in g <==>
      exists j :: 0 <= j < |nodes| && nodes[j].drawconnections && x in nodes[j].connections
    {
      GatheredMembers(nodes, x);
    }
  }

  /** The in-place compaction of DrawBodies over a sorted array: moves each
      element that differs from the last one kept to `head`, then returns
      the new length. */
  method Compact(a: array<nat>) returns (head: nat)
    modifies a
    ensures head <= a.Length
    ensures a[..head] == Dedup(old(a[..]))
  {
    head := 0;
    var last: nat := 0;
    var haveLast := false;
    for i := 0 to a.Length
      invariant head <= i
      invariant a[i..] == old(a[i..])
      invariant a[..head] == Dedup(old(a[..i]))
      invariant haveLast <==> head > 0
      invariant haveLast ==> last == a[head - 1]
    {
      assert old(a[..i + 1])[..i] == old(a[..i]);
      assert old(a[..i + 1])[i] == a[i];
      var con := a[i];
      if !haveLast || con != last {
        a[head] := con;
        head := head + 1;
        last := con;
        haveLast := true;
      }
      assert a[i + 1..] == old(a[i + 1..]);
    }
    assert old(a[..a.Length]) == old(a[..]);
  }
}
