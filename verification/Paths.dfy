/** Shortest path by exhaustive search (`common/mininet/shortest_path.py`). */
module Paths {
  type Graph<N> = map<N, seq<N>>

  datatype SearchResult<N> = Found(path: seq<N>) | NoPath | UnknownNode

  // ----- walks -----

  ghost predicate IsWalk<N>(g: Graph<N>, w: seq<N>) {
    |w| > 0 && forall i :: 0 <= i < |w| - 1 ==> w[i] in g && w[i + 1] in g[w[i]]
  }

  /** A walk from `a` to `b` whose inner nodes are all admitted. */
  ghost predicate Connects<N>(g: Graph<N>, w: seq<N>, a: N, b: N, exclude: N -> bool) {
    && IsWalk(g, w) && w[0] == a && w[|w| - 1] == b
    && forall i :: 0 < i < |w| - 1 ==> !exclude(w[i])
  }

  ghost predicate Avoids<N>(w: seq<N>, visited: seq<N>) {
    forall i :: 0 <= i < |w| ==> w[i] !in visited
  }

  ghost predicate IsSimple<N>(w: seq<N>) {
    forall i, j :: 0 <= i < j < |w| ==> w[i] != w[j]
  }

  /** Every neighbour is a node of the graph. */
  ghost predicate Closed<N>(g: Graph<N>) {
    forall n, m :: n in g && m in g[n] ==> m in g
  }

  ghost predicate Symmetric<N>(g: Graph<N>) {
    forall n, m :: n in g && m in g[n] ==> m in g && n in g[m]
  }

  ghost predicate DuplicateFree<N>(g: Graph<N>) {
    forall n, i, j :: n in g && 0 <= i < j < |g[n]| ==> g[n][i] != g[n][j]
  }

  /** The result is a simple connection that avoids `visited` and is no longer than any connection that
      does; there is none exactly when no connection does. */
  ghost predicate IsShortest<N(!new)>(
    g: Graph<N>, a: N, b: N, visited: seq<N>, exclude: N -> bool, r: SearchResult<N>)
  {
    && !r.UnknownNode?
    && (r.Found? ==> Connects(g, r.path, a, b, exclude) && Avoids(r.path, visited) && IsSimple(r.path))
    && (forall w :: Connects(g, w, a, b, exclude) && Avoids(w, visited) ==> r.Found? && |r.path| <= |w|)
  }

  // ----- the search -----

  /** The first of the shortest paths in the list, as a stable sort by length puts it in front. */
  method FirstShortest<N>(paths: seq<seq<N>>) returns (p: seq<N>)
    requires |paths| > 0
    ensures exists k :: 0 <= k < |paths| && p == paths[k] && forall i :: 0 <= i < k ==> |p| < |paths[i]|
    ensures forall i :: 0 <= i < |paths| ==> |p| <= |paths[i]|
  {
    var best := 0;
    for n := 1 to |paths|
      invariant 0 <= best < n
      invariant forall i :: 0 <= i < n ==> |paths[best]| <= |paths[i]|
      invariant forall i :: 0 <= i < best ==> |paths[best]| < |paths[i]|
    {
      if |paths[n]| < |paths[best]| {
        best := n;
      }
    }
    p := paths[best];
  }

  function Unvisited<N>(g: Graph<N>, visited: seq<N>): set<N> {
    set n | n in g && n !in visited
  }

  /** After leaving `a` for the last time a walk avoids it. */
  lemma {:induction false} LastDeparture<N>(
    g: Graph<N>, w: seq<N>, a: N, b: N, visited: seq<N>, exclude: N -> bool) returns (v: seq<N>)
    requires Connects(g, w, a, b, exclude) && Avoids(w, visited) && a != b
    ensures |v| < |w| && Avoids(v, visited + [a])
    ensures Connects(g, [a] + v, a, b, exclude) && |v| > 0 && v[|v| - 1] == b
    decreases |w|
  {
    if i :| 0 < i < |w| && w[i] == a {
      assert Connects(g, w[i..], a, b, exclude);
      v := LastDeparture(g, w[i..], a, b, visited, exclude);
    } else {
      v := w[1..];
      assert [a] + v == w;
    }
  }

  /** What the search collects: a simple rest path from an admitted neighbour. */
  ghost predicate Candidate<N>(g: Graph<N>, a: N, b: N, visited: seq<N>, exclude: N -> bool, p: seq<N>)
    requires a in g
  {
    Departs(g, a, b, visited, exclude, p) && IsSimple(p)
  }

  /** What any connection from `a` comes down to: a connection from an admitted neighbour. */
  ghost predicate Departs<N>(g: Graph<N>, a: N, b: N, visited: seq<N>, exclude: N -> bool, v: seq<N>)
    requires a in g
  {
    |v| > 0 && v[0] in g[a] && (v[0] == b || !exclude(v[0])) && Connects(g, v, v[0], b, exclude) && Avoids(v, visited)
  }

  lemma {:induction false} CandidateExtends<N>(g: Graph<N>, a: N, b: N, visited: seq<N>, exclude: N -> bool, p: seq<N>)
    requires a in g && a != b && a !in visited && Candidate(g, a, b, visited + [a], exclude, p)
    ensures Connects(g, [a] + p, a, b, exclude) && Avoids([a] + p, visited) && IsSimple([a] + p)
  {
    var long := [a] + p;
    forall i | 0 <= i < |long|
      ensures long[i] !in visited && (i > 0 ==> long[i] == p[i - 1] && p[i - 1] != a)
    {
      if i > 0 {
        assert p[i - 1] !in visited + [a];
      }
    }
    forall i | 0 <= i < |long| - 1
      ensures long[i] in g && long[i + 1] in g[long[i]]
    {
      if i > 0 {
        assert p[i - 1] in g && p[i] in g[p[i - 1]];
      }
    }
    forall i | 0 < i < |long| - 1
      ensures !exclude(long[i])
    {
      if i == 1 {
        assert p[0] != p[|p| - 1];
      }
    }
  }

  /** Every connection comes down to one that departs for good. */
  lemma {:induction false} ConnectionDeparts<N>(
    g: Graph<N>, a: N, b: N, visited: seq<N>, exclude: N -> bool, w: seq<N>) returns (v: seq<N>)
    requires Connects(g, w, a, b, exclude) && Avoids(w, visited) && a != b
    ensures a in g && Departs(g, a, b, visited + [a], exclude, v) && |v| < |w|
  {
    v := LastDeparture(g, w, a, b, visited, exclude);
    var long := [a] + v;
    assert long[0] in g && long[1] in g[long[0]];
    forall i | 0 <= i < |v| - 1
      ensures v[i] in g && v[i + 1] in g[v[i]]
    {
      assert long[i + 1] in g && long[i + 2] in g[long[i + 1]];
    }
    forall i | 0 <= i < |v| - 1
      ensures !exclude(v[i])
    {
      assert !exclude(long[i + 1]);
    }
  }

  ghost predicate Beaten<N>(paths: seq<seq<N>>, v: seq<N>) {
    exists k :: 0 <= k < |paths| && |paths[k]| <= |v|
  }

  method RecPath<N(==, !new)>(g: Graph<N>, a: N, b: N, visited: seq<N>, exclude: N -> bool) returns (r: SearchResult<N>)
    requires Closed(g) && (a in g || a == b) && a !in visited && b !in visited
    ensures IsShortest(g, a, b, visited, exclude, r)
    decreases Unvisited(g, visited)
  {
    if a == b {
      ghost var w := [a];
      assert Connects(g, w, a, b, exclude);
      return Found([a]);
    }
    var newVisited := visited + [a];
    assert a in Unvisited(g, visited) && a !in Unvisited(g, newVisited);
    var paths: seq<seq<N>> := [];
    for n := 0 to |g[a]|
      invariant forall k :: 0 <= k < |paths| ==> Candidate(g, a, b, newVisited, exclude, paths[k])
      invariant forall v :: Departs(g, a, b, newVisited, exclude, v) && v[0] in g[a][..n] ==> Beaten(paths, v)
    {
      var neighbor := g[a][n];
      ghost var before := paths;
      if neighbor in newVisited || (exclude(neighbor) && neighbor != b) {
        assert forall v :: Departs(g, a, b, newVisited, exclude, v) ==> v[0] != neighbor;
      } else {
        var found := RecPath(g, neighbor, b, newVisited, exclude);
        if found.Found? {
          paths := paths + [found.path];
          assert paths[|before|] == found.path;
        }
        assert forall v :: Departs(g, a, b, newVisited, exclude, v) && v[0] == neighbor ==>
          found.Found? && |found.path| <= |v|;
      }
      forall v | Departs(g, a, b, newVisited, exclude, v) && v[0] in g[a][..n + 1]
        ensures Beaten(paths, v)
      {
        if v[0] != neighbor {
          assert v[0] in g[a][..n];
          var k :| 0 <= k < |before| && |before[k]| <= |v|;
          assert paths[k] == before[k];
        }
      }
    }
    assert g[a][..|g[a]|] == g[a];
    ghost var collected := paths;
    if |paths| > 0 {
      var p := FirstShortest(paths);
      CandidateExtends(g, a, b, visited, exclude, p);
      r := Found([a] + p);
    } else {
      r := NoPath;
    }
    forall w | Connects(g, w, a, b, exclude) && Avoids(w, visited)
      ensures r.Found? && |r.path| <= |w|
    {
      var v := ConnectionDeparts(g, a, b, visited, exclude, w);
      assert v[0] in g[a][..|g[a]|];
      assert Beaten(collected, v);
    }
  }

  // ----- symmetry -----

  function Reversed<N>(w: seq<N>): (r: seq<N>)
    ensures |r| == |w|
  {
    seq(|w|, i requires 0 <= i < |w| => w[|w| - 1 - i])
  }

  lemma {:induction false} ReversedConnects<N>(g: Graph<N>, w: seq<N>, a: N, b: N, exclude: N -> bool)
    requires Symmetric(g) && Connects(g, w, a, b, exclude)
    ensures Connects(g, Reversed(w), b, a, exclude)
  {
    var r := Reversed(w);
    forall i | 0 <= i < |r| - 1
      ensures r[i] in g && r[i + 1] in g[r[i]]
    {
      var j := |w| - 2 - i;
      assert r[i] == w[j + 1] && r[i + 1] == w[j];
      assert w[j] in g && w[j + 1] in g[w[j]];
    }
    forall i | 0 < i < |r| - 1
      ensures !exclude(r[i])
    {
      assert r[i] == w[|w| - 1 - i];
    }
  }

  /** The search is symmetric: from `b` to `a` it finds a path of the same length, or none either. */
  lemma {:induction false} ShortestIsSymmetric<N(!new)>(
    g: Graph<N>, a: N, b: N, exclude: N -> bool, r: SearchResult<N>, s: SearchResult<N>)
    requires Symmetric(g) && IsShortest(g, a, b, [], exclude, r) && IsShortest(g, b, a, [], exclude, s)
    ensures (r.NoPath? <==> s.NoPath?) && (r.Found? ==> |r.path| == |s.path|)
  {
    if r.Found? {
      ReversedConnects(g, r.path, a, b, exclude);
      assert Avoids(Reversed(r.path), []);
    }
    if s.Found? {
      ReversedConnects(g, s.path, b, a, exclude);
      assert Avoids(Reversed(s.path), []);
    }
  }

  class ShortestPath<N(==, !new)> {
    var neighbors: Graph<N>

    ghost predicate Valid()
      reads this
    {
      Closed(neighbors) && Symmetric(neighbors) && DuplicateFree(neighbors)
    }

    constructor ()
      ensures Valid() && neighbors == map[]
    {
      neighbors := map[];
    }

    /** Adds the edge in both directions, each once. */
    method AddEdge(a: N, b: N)
      requires Valid()
      modifies this
      ensures Valid()
      ensures neighbors.Keys == old(neighbors).Keys + {a, b}
      ensures forall n, m :: n in neighbors ==>
        (m in neighbors[n] <==>
          (n in old(neighbors) && m in old(neighbors)[n]) || (n == a && m == b) || (n == b && m == a))
    {
      AddDirected(a, b);
      AddDirected(b, a);
    }

    method AddDirected(a: N, b: N)
      requires DuplicateFree(neighbors)
      modifies this
      ensures DuplicateFree(neighbors) && neighbors.Keys == old(neighbors).Keys + {a}
      ensures forall n, m :: n in neighbors ==>
        (m in neighbors[n] <==> (n in old(neighbors) && m in old(neighbors)[n]) || (n == a && m == b))
    {
      if a !in neighbors {
        neighbors := neighbors[a := []];
      }
      if b !in neighbors[a] {
        neighbors := neighbors[a := neighbors[a] + [b]];
      }
    }

    /** Asking from a node without any edge is a lookup error, unless it is the destination itself; asking for
        such a node finds no path.  Otherwise there is no path exactly when no walk with admitted inner
        nodes exists, and a path found is simple and at most as long as any such walk. */
    method Get(a: N, b: N, exclude: N -> bool) returns (r: SearchResult<N>)
      requires Valid()
      ensures r.UnknownNode? <==> a !in neighbors && a != b
      ensures r.NoPath? <==> a in neighbors && forall w :: !Connects(neighbors, w, a, b, exclude)
      ensures r.Found? ==>
        && Connects(neighbors, r.path, a, b, exclude) && IsSimple(r.path)
        && forall w :: Connects(neighbors, w, a, b, exclude) ==> |r.path| <= |w|
      ensures a == b ==> r == Found([a])
      ensures a in neighbors && b !in neighbors ==> r.NoPath?
      ensures !r.UnknownNode? ==> IsShortest(neighbors, a, b, [], exclude, r)
    {
      if a != b && a !in neighbors {
        return UnknownNode;
      }
      r := RecPath(neighbors, a, b, [], exclude);
      ghost var here := [a];
      assert a == b ==> Connects(neighbors, here, a, b, exclude);
      assert forall w :: Connects(neighbors, w, a, b, exclude) ==> Avoids(w, []);
      if r.Found? && a != b {
        EndsInGraph(neighbors, r.path, a, b, exclude);
      }
    }
  }

  /** A walk never leaves the graph. */
  lemma {:induction false} EndsInGraph<N>(g: Graph<N>, w: seq<N>, a: N, b: N, exclude: N -> bool)
    requires Closed(g) && Connects(g, w, a, b, exclude) && a != b
    ensures b in g
  {
    var i := |w| - 2;
    assert w[i] in g && w[i + 1] in g[w[i]];
  }
}
