/** The cube builder of main.cpp: the 26-neighbourhood of a grid point,
    the filter that keeps one orientation of each neighbour pair, and the
    loop that locks the bottom layer. A point (x, y, z) of an n-point-wide
    cube has index x*n*n + y*n + z. */
module Grid {
  import opened Nodes
  import opened SoftBodies
  import opened Arithmetic

  /** The index of grid point (x, y, z). */
  function Index(x: int, y: int, z: int, n: int): int {
    x * (n * n) + y * n + z
  }

  /** The position of offset (xd, yd, zd) in the lexicographic walk of
      {-1, 0, 1}^3, from 0 to 26. */
  function Ordinal(xd: int, yd: int, zd: int): int {
    (xd + 1) * 9 + (yd + 1) * 3 + (zd + 1)
  }

  /** The k-th non-zero offset in lexicographic order: the walk's
      ordinals with the centre (ordinal 13) skipped. */
  function Offset(k: nat): (int, int, int)
    requires k < 26
  {
    var t := if k < 13 then k else k + 1;
    (t / 9 - 1, (t / 3) % 3 - 1, t % 3 - 1)
  }

  /** The entry GetAdjacents writes for offset (xd, yd, zd): the pair
      (this point, neighbour), or (-1, -1) when the neighbour lies outside
      the cube. */
  function NeighbourAt(x: int, y: int, z: int, n: nat, xd: int, yd: int, zd: int): (int, int) {
    if x + xd < 0 || y + yd < 0 || z + zd < 0 then (-1, -1)
    else if x + xd >= n || y + yd >= n || z + zd >= n then (-1, -1)
    else (Index(x, y, z, n), Index(x + xd, y + yd, z + zd, n))
  }

  /** Entry k of GetAdjacents(x, y, z, n). */
  function Neighbour(x: int, y: int, z: int, n: nat, k: nat): (int, int)
    requires k < 26
  {
    var o := Offset(k);
    NeighbourAt(x, y, z, n, o.0, o.1, o.2)
  }

  /** The 26 offsets are exactly the non-zero members of {-1, 0, 1}^3,
      each once, in xd-yd-zd lexicographic order. */
  lemma OffsetsEnumerate(k: nat)
    requires k < 26
    ensures var (xd, yd, zd) := Offset(k);
      -1 <= xd <= 1 && -1 <= yd <= 1 && -1 <= zd <= 1 && !(xd == 0 && yd == 0 && zd == 0) &&
      Ordinal(xd, yd, zd) == (if k < 13 then k else k + 1)
    ensures k + 1 < 26 ==> Ordinal(Offset(k).0, Offset(k).1, Offset(k).2) < Ordinal(Offset(k + 1).0, Offset(k + 1).1, Offset(k + 1).2)
  {
    OrdinalDigits(if k < 13 then k else k + 1);
    if k + 1 < 26 {
      OrdinalDigits(if k + 1 < 13 then k + 1 else k + 2);
    }
  }

  /** Reading an ordinal t < 27 as three base-3 digits recovers an offset
      in {-1, 0, 1}^3 whose ordinal is t. */
  lemma OrdinalDigits(t: int)
    requires 0 <= t < 27
    ensures -1 <= t / 9 - 1 <= 1 && -1 <= (t / 3) % 3 - 1 <= 1 && -1 <= t % 3 - 1 <= 1
    ensures Ordinal(t / 9 - 1, (t / 3) % 3 - 1, t % 3 - 1) == t
  {
    var q := t / 3;
    DivModParts(t, 3);
    DivModParts(q, 3);
    DivModUnique(t, 9, q / 3, (q % 3) * 3 + t % 3);
  }

  /** The slot at which GetAdjacents writes offset (xd, yd, zd). */
  lemma OffsetOfOrdinal(xd: int, yd: int, zd: int)
    requires -1 <= xd <= 1 && -1 <= yd <= 1 && -1 <= zd <= 1 && !(xd == 0 && yd == 0 && zd == 0)
    ensures var t := Ordinal(xd, yd, zd);
      var k := if t < 13 then t else t - 1;
      0 <= k < 26 && Offset(k) == (xd, yd, zd)
  {
  }

  /** Points inside the cube have indices in [0, n^3). */
  lemma IndexBounds(x: int, y: int, z: int, n: int)
    requires 0 <= x < n && 0 <= y < n && 0 <= z < n
    ensures 0 <= Index(x, y, z, n) < n * n * n
  {
    RowBounds(y, z, n);
    MulLe(x, n - 1, n * n);
    MulNonneg(x, n * n);
    assert (n - 1) * (n * n) + n * n == n * n * n;
  }

  /** Distinct points of the cube have distinct indices. */
  lemma IndexInjective(x1: int, y1: int, z1: int, x2: int, y2: int, z2: int, n: int)
    requires 0 <= x1 < n && 0 <= y1 < n && 0 <= z1 < n
    requires 0 <= x2 < n && 0 <= y2 < n && 0 <= z2 < n
    requires Index(x1, y1, z1, n) == Index(x2, y2, z2, n)
    ensures x1 == x2 && y1 == y2 && z1 == z2
  {
    var i := Index(x1, y1, z1, n);
    RowBounds(y1, z1, n);
    RowBounds(y2, z2, n);
    DivModUnique(i, n * n, x1, y1 * n + z1);
    DivModUnique(i, n * n, x2, y2 * n + z2);
    DivModUnique(y1 * n + z1, n, y1, z1);
    DivModUnique(y2 * n + z2, n, y2, z2);
  }

  /** For a point inside the cube, every entry is (-1, -1) exactly when its
      neighbour lies outside; otherwise it pairs this point's index with the
      neighbour's, both below n^3 and different. */
  lemma NeighbourBounds(x: int, y: int, z: int, n: nat, k: nat)
    requires 0 <= x < n && 0 <= y < n && 0 <= z < n && k < 26
    ensures var (xd, yd, zd) := Offset(k);
      var inside := 0 <= x + xd < n && 0 <= y + yd < n && 0 <= z + zd < n;
      (Neighbour(x, y, z, n, k) == (-1, -1) <==> !inside) &&
      (inside ==>
        Neighbour(x, y, z, n, k).0 == Index(x, y, z, n) &&
        0 <= Neighbour(x, y, z, n, k).0 < n * n * n &&
        0 <= Neighbour(x, y, z, n, k).1 < n * n * n &&
        Neighbour(x, y, z, n, k).0 != Neighbour(x, y, z, n, k).1)
  {
    var (xd, yd, zd) := Offset(k);
    OffsetsEnumerate(k);
    IndexBounds(x, y, z, n);
    if 0 <= x + xd < n && 0 <= y + yd < n && 0 <= z + zd < n {
      IndexBounds(x + xd, y + yd, z + zd, n);
      if Index(x, y, z, n) == Index(x + xd, y + yd, z + zd, n) {
        IndexInjective(x, y, z, x + xd, y + yd, z + zd, n);
      }
    }
  }

  /** The body of GetAdjacents' innermost loop for one offset: (-1, -1)
      when the neighbour falls outside the cube, else the pair of indices,
      computed from `thisnode` and the strides n*n and n. */
  method Adjacent(x: int, y: int, z: int, numpoints: nat, xd: int, yd: int, zd: int, thisnode: int)
    returns (e: (int, int))
    requires thisnode == Index(x, y, z, numpoints)
    ensures e == NeighbourAt(x, y, z, numpoints, xd, yd, zd)
  {
    var xmag := numpoints * numpoints;
    var ymag := numpoints;
    if x + xd < 0 || y + yd < 0 || z + zd < 0 {
      e := (-1, -1);
    } else if x + xd >= numpoints || y + yd >= numpoints || z + zd >= numpoints {
      e := (-1, -1);
    } else {
      e := (thisnode, (x + xd) * xmag + (y + yd) * ymag + (z + zd));
    }
  }

  /** `GetAdjacents(x, y, z, numpoints)`: walks the offsets in {-1, 0, 1}^3
      in nested loops, skips (0, 0, 0) and writes each entry at `head`. */
  method GetAdjacents(x: int, y: int, z: int, numpoints: nat) returns (perms: array<(int, int)>)
    ensures fresh(perms) && perms.Length == 26
    ensures forall k :: 0 <= k < 26 ==> perms[k] == Neighbour(x, y, z, numpoints, k)
  {
    var xmag := numpoints * numpoints;
    var ymag := numpoints;
    var thisnode := x * xmag + y * ymag + z;
    perms := new (int, int)[26];
    var head := 0;
    for xd := -1 to 2
      invariant head == Ordinal(xd, -1, -1) - (if xd > 0 then 1 else 0)
      invariant forall k :: 0 <= k < head ==> perms[k] == Neighbour(x, y, z, numpoints, k)
    {
      for yd := -1 to 2
        invariant head == Ordinal(xd, yd, -1) - (if xd > 0 || (xd == 0 && yd > 0) then 1 else 0)
        invariant forall k :: 0 <= k < head ==> perms[k] == Neighbour(x, y, z, numpoints, k)
      {
        for zd := -1 to 2
          invariant head == Ordinal(xd, yd, zd) - (if Ordinal(xd, yd, zd) > 13 then 1 else 0)
          invariant forall k :: 0 <= k < head ==> perms[k] == Neighbour(x, y, z, numpoints, k)
        {
          if xd == 0 && yd == 0 && zd == 0 {
            continue;
          }
          perms[head] := Adjacent(x, y, z, numpoints, xd, yd, zd, thisnode);
          OffsetOfOrdinal(xd, yd, zd);
          head := head + 1;
        }
      }
    }
  }

  // ---------------------------------------------------------------------
  // The connection filter

  /** The filter loop over the gathered pairs: a pair is dropped when
      either index is negative or at least `total`, or when its reverse was
      already kept; otherwise it is appended. */
  function Filtered(bloated: seq<(int, int)>, total: int): seq<(int, int)>
    decreases |bloated|
  {
    if bloated == [] then []
    else
      var kept := Filtered(bloated[..|bloated| - 1], total);
      var c := bloated[|bloated| - 1];
      if c.0 < 0 || c.1 < 0 || c.0 >= total || c.1 >= total then kept
      else if (c.1, c.0) in kept then kept
      else kept + [c]
  }

  /** The filter loop of main, with the inner scan for a reversed pair. */
  method FilterConnections(bloated: seq<(int, int)>, total: int) returns (connections: seq<(int, int)>)
    ensures connections == Filtered(bloated, total)
  {
    connections := [];
    for i := 0 to |bloated|
      invariant connections == Filtered(bloated[..i], total)
    {
      assert bloated[..i + 1][..i] == bloated[..i];
      var connection := bloated[i];
      if connection.0 < 0 || connection.1 < 0 || connection.0 >= total || connection.1 >= total {
        continue;
      }
      var bad := false;
      var j := 0;
      while j < |connections|
        invariant 0 <= j <= |connections|
        invariant bad <==> (connection.1, connection.0) in connections[..j]
        invariant bad ==> j < |connections|
        decreases |connections| - j, if bad then 0 else 1
      {
        var c := connections[j];
        if c.0 == connection.1 && c.1 == connection.0 {
          bad := true;
          assert connections[..j + 1] == connections[..j] + [c];
          break;
        }
        assert connections[..j + 1] == connections[..j] + [c];
        j := j + 1;
      }
      assert connections[..|connections|] == connections;
      if bad {
        continue;
      }
      connections := connections + [connection];
    }
    assert bloated[..|bloated|] == bloated;
  }

  /** Every kept pair has both indices in [0, total). */
  lemma {:induction false} FilteredInRange(bloated: seq<(int, int)>, total: int)
    ensures forall k :: 0 <= k < |Filtered(bloated, total)| ==>
      0 <= Filtered(bloated, total)[k].0 < total && 0 <= Filtered(bloated, total)[k].1 < total
    decreases |bloated|
  {
    if bloated != [] {
      FilteredInRange(bloated[..|bloated| - 1], total);
    }
  }

  /** No two kept pairs are reverses of each other. */
  lemma {:induction false} FilteredNoReverse(bloated: seq<(int, int)>, total: int)
    ensures forall a, b :: 0 <= a < b < |Filtered(bloated, total)| ==>
      Filtered(bloated, total)[b] != (Filtered(bloated, total)[a].1, Filtered(bloated, total)[a].0)
    decreases |bloated|
  {
    if bloated != [] {
      var kept := Filtered(bloated[..|bloated| - 1], total);
      FilteredNoReverse(bloated[..|bloated| - 1], total);
      var c := bloated[|bloated| - 1];
      if Filtered(bloated, total) != kept {
        forall a | 0 <= a < |kept|
          ensures c != (kept[a].1, kept[a].0)
        {
          assert kept[a] in kept;
        }
      }
    }
  }

  /** Every in-range pair of the input survives in one orientation or the
      other. */
  lemma {:induction false} FilteredComplete(bloated: seq<(int, int)>, total: int)
    ensures forall k :: 0 <= k < |bloated| && 0 <= bloated[k].0 < total && 0 <= bloated[k].1 < total ==>
      bloated[k] in Filtered(bloated, total) || (bloated[k].1, bloated[k].0) in Filtered(bloated, total)
    decreases |bloated|
  {
    if bloated != [] {
      var init := bloated[..|bloated| - 1];
      FilteredComplete(init, total);
      var kept := Filtered(init, total);
      assert forall p :: p in kept ==> p in Filtered(bloated, total);
      forall k | 0 <= k < |bloated| - 1
        ensures bloated[k] == init[k]
      {
      }
    }
  }

  /** `a` can be obtained from `b` by deleting elements. */
  ghost predicate Subsequence(a: seq<(int, int)>, b: seq<(int, int)>)
    decreases |b|
  {
    if a == [] then true
    else if b == [] then false
    else if a[|a| - 1] == b[|b| - 1] && Subsequence(a[..|a| - 1], b[..|b| - 1]) then true
    else Subsequence(a, b[..|b| - 1])
  }

  /** The kept pairs appear in the input, in the input's order. */
  lemma {:induction false} FilteredSubsequence(bloated: seq<(int, int)>, total: int)
    ensures Subsequence(Filtered(bloated, total), bloated)
    decreases |bloated|
  {
    if bloated != [] {
      var init := bloated[..|bloated| - 1];
      FilteredSubsequence(init, total);
      var kept := Filtered(init, total);
      if Filtered(bloated, total) == kept {
        if kept != [] {
          assert Subsequence(kept, init);
        }
      } else {
        assert Filtered(bloated, total) == kept + [bloated[|bloated| - 1]];
        assert (kept + [bloated[|bloated| - 1]])[..|kept|] == kept;
      }
    }
  }

  // ---------------------------------------------------------------------
  // The lock loop

  /** Index i lies in the y = 0 layer: its offset within its x-slab is below n. */
  predicate InBottomLayer(i: int, n: int)
    requires n > 0
  {
    i % (n * n) < n
  }

  /** The lock loop writes index x*n*n + z, which lies in the cube, in the
      y = 0 layer, in slab x at offset z. */
  lemma BottomLayerIndex(x: int, z: int, n: int)
    requires 0 <= x < n && 0 <= z < n
    ensures 0 <= Index(x, 0, z, n) < n * n * n
    ensures Index(x, 0, z, n) / (n * n) == x && Index(x, 0, z, n) % (n * n) == z
    ensures InBottomLayer(Index(x, 0, z, n), n)
  {
    IndexBounds(x, 0, z, n);
    var i := Index(x, 0, z, n);
    assert z < n <= n * n;
    assert i == x * (n * n) + z;
    DivModUnique(i, n * n, x, z);
  }

  /** Node i has been locked by the loop once it reaches slab x, offset z. */
  predicate LockedBefore(i: int, n: int, x: int, z: int)
    requires n > 0
  {
    InBottomLayer(i, n) && (i / (n * n) < x || (i / (n * n) == x && i % (n * n) < z))
  }

  /** The lock loop of main: for every x and z, the node at x*n*n + z
      (y = 0) is locked; every other field and node stays as it was. */
  method LockBottomLayer(body: SoftBody, numpoints: nat)
    requires numpoints > 0 && |body.workbody.Nodes| == numpoints * numpoints * numpoints
    modifies body.workbody
    ensures body.workbody.Connections == old(body.workbody.Connections)
    ensures |body.workbody.Nodes| == |old(body.workbody.Nodes)|
    ensures forall i :: 0 <= i < |body.workbody.Nodes| ==>
      body.workbody.Nodes[i] ==
        old(body.workbody.Nodes[i]).(islocked := old(body.workbody.Nodes[i].islocked) || InBottomLayer(i, numpoints))
  {
    var n := numpoints;
    var w := body.workbody;
    MulPos(n, n);
    for x := 0 to n
      invariant |w.Nodes| == |old(w.Nodes)| && w.Connections == old(w.Connections)
      invariant forall i :: 0 <= i < |w.Nodes| ==>
        w.Nodes[i] == old(w.Nodes[i]).(islocked := old(w.Nodes[i].islocked) || LockedBefore(i, n, x, 0))
    {
      for z := 0 to n
        invariant |w.Nodes| == |old(w.Nodes)| && w.Connections == old(w.Connections)
        invariant forall i :: 0 <= i < |w.Nodes| ==>
          w.Nodes[i] == old(w.Nodes[i]).(islocked := old(w.Nodes[i].islocked) || LockedBefore(i, n, x, z))
      {
        BottomLayerIndex(x, z, n);
        var index := x * n * n + n * 0 + z;
        assert index == Index(x, 0, z, n);
        w.Nodes := w.Nodes[index := w.Nodes[index].(islocked := true)];
        forall i | 0 <= i < |w.Nodes|
          ensures LockedBefore(i, n, x, z + 1) == (LockedBefore(i, n, x, z) || i == index)
        {
          LockStep(i, n, x, z);
        }
      }
      forall i | 0 <= i < |w.Nodes|
        ensures LockedBefore(i, n, x, n) == LockedBefore(i, n, x + 1, 0)
      {
      }
    }
    forall i | 0 <= i < |w.Nodes|
      ensures LockedBefore(i, n, n, 0) == InBottomLayer(i, n)
    {
      CubeSlab(i, n);
    }
  }

  /** Every index of the cube lies in one of its n slabs. */
  lemma CubeSlab(i: int, n: int)
    requires n > 0 && 0 <= i < n * n * n
    ensures i / (n * n) < n
  {
    if i / (n * n) >= n {
      MulLe(n, i / (n * n), n * n);
      assert false;
    }
  }

  /** Every index of the y = 0 layer is x*n*n + z for some x, z below n. */
  lemma BottomLayerExactly(i: int, n: int)
    requires n > 0 && 0 <= i < n * n * n && InBottomLayer(i, n)
    ensures 0 <= i / (n * n) < n && 0 <= i % (n * n) < n
    ensures i == Index(i / (n * n), 0, i % (n * n), n)
  {
    MulPos(n, n);
    DivModParts(i, n * n);
    CubeSlab(i, n);
  }

  /** Locking index x*n*n + z moves the lock loop from (x, z) to (x, z + 1). */
  lemma LockStep(i: int, n: int, x: int, z: int)
    requires 0 <= x < n && 0 <= z < n
    ensures LockedBefore(i, n, x, z + 1) == (LockedBefore(i, n, x, z) || i == Index(x, 0, z, n))
  {
    BottomLayerIndex(x, z, n);
    if i / (n * n) == x && i % (n * n) == z {
      assert i == (i / (n * n)) * (n * n) + i % (n * n);
    }
  }
}
