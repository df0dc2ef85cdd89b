/**
 * `Graph<T, K>`: a directed multigraph kept as an adjacency list. A vertex is
 * identified by its item (`Vertex.equals` compares items), so the vertices
 * are modelled by their items: `adjacency` maps each vertex to its list of
 * neighbours, duplicates included, and `outward` maps each vertex to its set
 * of outward edges. `Edge.equals` compares weights only, so a vertex holds at
 * most one outward edge per weight: the set is a map from weight to
 * destination.
 *
 * A list holds references to vertex objects. `destroy` sets the item of the
 * removed vertex to `null`, so a reference to it that is left in a list
 * becomes `Destroyed`: a vertex equal to no live vertex.
 */
module Graphs {
  import opened Common

  /** An entry of an adjacency list: a live vertex, or one `destroy` has emptied. */
  datatype Neighbour<T> = Vertex(item: T) | Destroyed

  /** `List.remove(Object)`: drops the first occurrence only. */
  function RemoveFirst<T(==,!new)>(xs: seq<T>, x: T): (r: seq<T>)
    ensures x !in xs ==> r == xs
    ensures x in xs ==> |r| == |xs| - 1 && multiset(r) == multiset(xs) - multiset{x}
    decreases |xs|
  {
    if xs == [] then []
    else
      assert xs == [xs[0]] + xs[1..];
      if xs[0] == x then xs[1..]
      else [xs[0]] + RemoveFirst(xs[1..], x)
  }

  /** Every occurrence of `x` removed, the order of the others kept. */
  function RemoveAll<T(==,!new)>(xs: seq<T>, x: T): (r: seq<T>)
    ensures x !in r
    ensures forall y :: y != x ==> (y in r <==> y in xs)
    ensures |r| <= |xs|
    decreases |xs|
  {
    if xs == [] then []
    else if xs[0] == x then RemoveAll(xs[1..], x)
    else [xs[0]] + RemoveAll(xs[1..], x)
  }

  /**
   * What `destroy` does to a list through aliasing: every reference to the
   * vertex of `x` now sees a vertex whose item is `null`.
   */
  function DestroyRefs<T(==,!new)>(xs: seq<Neighbour<T>>, x: T): (r: seq<Neighbour<T>>)
    ensures |r| == |xs|
    ensures forall i :: 0 <= i < |xs| ==> r[i] == if xs[i] == Vertex(x) then Destroyed else xs[i]
    decreases |xs|
  {
    if xs == [] then []
    else [if xs[0] == Vertex(x) then Destroyed else xs[0]] + DestroyRefs(xs[1..], x)
  }

  /** A list without references to `x` does not change when `x` is destroyed. */
  lemma DestroyRefsAbsent<T(!new)>(xs: seq<Neighbour<T>>, x: T)
    requires Vertex(x) !in xs
    ensures DestroyRefs(xs, x) == xs
  {
    var r := DestroyRefs(xs, x);
    forall i | 0 <= i < |xs|
      ensures r[i] == xs[i]
    {
      assert xs[i] in xs;
    }
  }

  /** After destroying `x`, no entry refers to `x`, and one is `Destroyed` exactly when it was or referred to `x`. */
  lemma DestroyRefsSpec<T(!new)>(xs: seq<Neighbour<T>>, x: T)
    ensures Vertex(x) !in DestroyRefs(xs, x)
    ensures Destroyed in DestroyRefs(xs, x) <==> Destroyed in xs || Vertex(x) in xs
    ensures forall y :: y != Vertex(x) && y != Destroyed ==> (y in DestroyRefs(xs, x) <==> y in xs)
  {
    var r := DestroyRefs(xs, x);
    if Destroyed in xs {
      var i :| 0 <= i < |xs| && xs[i] == Destroyed;
      assert r[i] == Destroyed;
    }
    if Vertex(x) in xs {
      var i :| 0 <= i < |xs| && xs[i] == Vertex(x);
      assert r[i] == Destroyed;
    }
    forall y | y != Vertex(x) && y != Destroyed && y in xs
      ensures y in r
    {
      var i :| 0 <= i < |xs| && xs[i] == y;
      assert r[i] == y;
    }
  }

  /** The edges of a vertex, without those leading to `x` (`removeIf(dest.equals(v))`). */
  function DropEdgesTo<T(==,!new), K(==,!new)>(edges: map<K, T>, x: T): (r: map<K, T>)
    ensures r.Keys <= edges.Keys
    ensures forall w :: w in r ==> r[w] == edges[w] && r[w] != x
    ensures forall w :: w in edges && edges[w] != x ==> w in r
  {
    map w | w in edges && edges[w] != x :: edges[w]
  }

  /** The weights of `vEdges` ending in `k`: what `destroy` takes out of `k`'s edge set. */
  function WeightsInto<T(==,!new), K(==,!new)>(vEdges: map<K, T>, k: T): set<K> {
    set w | w in vEdges && vEdges[w] == k
  }

  /**
   * Every reference to a live vertex and every edge destination is a vertex
   * of the graph.
   */
  ghost predicate Closed<T(!new), K(!new)>(adjacency: map<T, seq<Neighbour<T>>>, outward: map<T, map<K, T>>) {
    && adjacency.Keys == outward.Keys
    && (forall k, y :: k in adjacency && y in adjacency[k] && y.Vertex? ==> y.item in adjacency)
    && (forall k, w :: k in outward && w in outward[k] ==> outward[k][w] in outward)
  }

  /** A closed graph whose lists refer to no destroyed vertex. */
  ghost predicate WellFormed<T(!new), K(!new)>(adjacency: map<T, seq<Neighbour<T>>>, outward: map<T, map<K, T>>) {
    && Closed(adjacency, outward)
    && (forall k :: k in adjacency ==> Destroyed !in adjacency[k])
  }

  /** The adjacency lists after `removeVertex(x)`, with every reference to `x` gone. */
  function AdjacencyWithout<T(==,!new)>(adjacency: map<T, seq<Neighbour<T>>>, x: T): map<T, seq<Neighbour<T>>> {
    map k | k in adjacency && k != x :: RemoveAll(adjacency[k], Vertex(x))
  }

  /**
   * The edge sets after `removeVertex(x)`: edges into `x` are dropped from
   * every vertex, `x` itself goes, and `destroy` disconnects each remaining
   * edge of `x` by removing the edge of the same weight from its destination.
   */
  function OutwardWithout<T(==,!new), K(==,!new)>(outward: map<T, map<K, T>>, x: T): map<T, map<K, T>> {
    var vEdges := if x in outward then DropEdgesTo(outward[x], x) else map[];
    map k | k in outward && k != x :: DropEdgesTo(outward[k], x) - WeightsInto(vEdges, k)
  }

  /**
   * Detaching every reference to `x`, dropping `x` and destroying it leaves
   * `AdjacencyWithout`: no reference is left for `destroy` to reach.
   */
  lemma AdjacencyAfterDetach<T(!new)>(adjacency: map<T, seq<Neighbour<T>>>, x: T)
    ensures var detached := (map k | k in adjacency :: RemoveAll(adjacency[k], Vertex(x))) - {x};
      (map k | k in detached :: DestroyRefs(detached[k], x)) == AdjacencyWithout(adjacency, x)
  {
    var detached := (map k | k in adjacency :: RemoveAll(adjacency[k], Vertex(x))) - {x};
    var destroyed := map k | k in detached :: DestroyRefs(detached[k], x);
    var without := AdjacencyWithout(adjacency, x);
    assert destroyed.Keys == without.Keys;
    forall k | k in detached
      ensures destroyed[k] == without[k]
    {
      DestroyRefsAbsent(detached[k], x);
    }
  }

  /**
   * Detaching the first reference to `x`, dropping `x` and destroying it
   * leaves `AdjacencyWithoutAsWritten`.
   */
  lemma AdjacencyAfterDetachAsWritten<T(!new)>(adjacency: map<T, seq<Neighbour<T>>>, x: T)
    ensures var detached := (map k | k in adjacency :: RemoveFirst(adjacency[k], Vertex(x))) - {x};
      (map k | k in detached :: DestroyRefs(detached[k], x)) == AdjacencyWithoutAsWritten(adjacency, x)
  {
  }

  /**
   * Dropping the edges into `x`, then `x` itself, then the edges `destroy`
   * disconnects, leaves `OutwardWithout`.
   */
  lemma OutwardAfterDrop<T(!new), K(!new)>(outward: map<T, map<K, T>>, x: T)
    requires x in outward
    ensures var dropped := map k | k in outward :: DropEdgesTo(outward[k], x);
      var rest := dropped - {x};
      (map k | k in rest :: rest[k] - WeightsInto(dropped[x], k)) == OutwardWithout(outward, x)
  {
  }

  /**
   * After removal nothing refers to the removed item, every other vertex is
   * still there, and the graph stays well formed.
   */
  lemma RemovalForgetsVertex<T(!new), K(!new)>(adjacency: map<T, seq<Neighbour<T>>>, outward: map<T, map<K, T>>, x: T)
    requires WellFormed(adjacency, outward)
    ensures var adj := AdjacencyWithout(adjacency, x); var out := OutwardWithout(outward, x);
      && x !in adj
      && adj.Keys == adjacency.Keys - {x}
      && (forall k :: k in adj ==> Vertex(x) !in adj[k])
      && (forall k, w :: k in out && w in out[k] ==> out[k][w] != x)
      && WellFormed(adj, out)
  {
    var adj := AdjacencyWithout(adjacency, x);
    var out := OutwardWithout(outward, x);
    forall k, y: Neighbour<T> | k in adj && y in adj[k] && y.Vertex?
      ensures y.item in adj
    {
      assert y != Vertex(x) && y in adjacency[k];
    }
    forall k | k in adj
      ensures Destroyed !in adj[k]
    {
      assert Destroyed !in adjacency[k];
    }
    forall k, w | k in out && w in out[k]
      ensures out[k][w] in out && out[k][w] != x
    {
      assert w in DropEdgesTo(outward[k], x);
    }
  }

  /**
   * `removeVertex` as written empties the lists with `List.remove`, which
   * takes out only the first reference. Two edges from A to B with different
   * weights put B twice into A's list; removing B leaves one reference, which
   * `destroy` turns into a reference to a destroyed vertex.
   */
  function AdjacencyWithoutAsWritten<T(==,!new)>(adjacency: map<T, seq<Neighbour<T>>>, x: T): map<T, seq<Neighbour<T>>> {
    map k | k in adjacency && k != x :: DestroyRefs(RemoveFirst(adjacency[k], Vertex(x)), x)
  }

  /**
   * As written, no list refers to `x` afterwards, and a list refers to a
   * destroyed vertex exactly when it already did or held `x` at least twice.
   */
  lemma AsWrittenKeepsExtraCopies<T(!new)>(adjacency: map<T, seq<Neighbour<T>>>, x: T, k: T)
    requires k in adjacency && k != x
    ensures Vertex(x) !in AdjacencyWithoutAsWritten(adjacency, x)[k]
    ensures Destroyed in AdjacencyWithoutAsWritten(adjacency, x)[k] <==>
      Destroyed in adjacency[k] || multiset(adjacency[k])[Vertex(x)] >= 2
  {
    var xs := adjacency[k];
    var r := RemoveFirst(xs, Vertex(x));
    DestroyRefsSpec(r, x);
    if Vertex(x) in xs {
      assert multiset(r)[Vertex(x)] == multiset(xs)[Vertex(x)] - 1;
      assert multiset(r)[Destroyed] == multiset(xs)[Destroyed];
    }
  }

  /**
   * As written, the removal keeps every reference to a live vertex inside
   * the graph: what it leaves behind is a destroyed vertex.
   */
  lemma AsWrittenStaysClosed<T(!new), K(!new)>(adjacency: map<T, seq<Neighbour<T>>>, outward: map<T, map<K, T>>, x: T)
    requires Closed(adjacency, outward)
    ensures Closed(AdjacencyWithoutAsWritten(adjacency, x), OutwardWithout(outward, x))
  {
    var adj := AdjacencyWithoutAsWritten(adjacency, x);
    var out := OutwardWithout(outward, x);
    forall k, y: Neighbour<T> | k in adj && y in adj[k] && y.Vertex?
      ensures y.item in adj
    {
      var r := RemoveFirst(adjacency[k], Vertex(x));
      DestroyRefsSpec(r, x);
      assert y != Vertex(x) && y in r;
      if Vertex(x) in adjacency[k] {
        assert multiset(r)[y] == multiset(adjacency[k])[y];
      }
      assert y in adjacency[k];
    }
    forall k, w | k in out && w in out[k]
      ensures out[k][w] in out
    {
      assert w in DropEdgesTo(outward[k], x);
    }
  }

  /** Removing everything but nothing present leaves a list as it was. */
  lemma {:induction false} RemoveAllAbsent<T(!new)>(xs: seq<T>, x: T)
    requires x !in xs
    ensures RemoveAll(xs, x) == xs
    decreases |xs|
  {
    if xs != [] {
      RemoveAllAbsent(xs[1..], x);
      assert xs == [xs[0]] + xs[1..];
    }
  }

  /** On a list holding `x` at most once, `List.remove` removes every occurrence. */
  lemma {:induction false} RemoveFirstOfSingle<T(!new)>(xs: seq<T>, x: T)
    requires multiset(xs)[x] <= 1
    ensures RemoveFirst(xs, x) == RemoveAll(xs, x)
    decreases |xs|
  {
    if xs != [] {
      assert xs == [xs[0]] + xs[1..];
      assert multiset(xs) == multiset{xs[0]} + multiset(xs[1..]);
      if xs[0] == x {
        assert x !in multiset(xs[1..]);
        RemoveAllAbsent(xs[1..], x);
      } else {
        RemoveFirstOfSingle(xs[1..], x);
      }
    }
  }

  /**
   * When no list refers to `x` twice, `removeVertex` as written agrees with
   * the corrected removal.
   */
  lemma AsWrittenAgreesWithoutDuplicates<T(!new)>(adjacency: map<T, seq<Neighbour<T>>>, x: T)
    requires forall k :: k in adjacency ==> multiset(adjacency[k])[Vertex(x)] <= 1
    ensures AdjacencyWithoutAsWritten(adjacency, x) == AdjacencyWithout(adjacency, x)
  {
    forall k | k in adjacency && k != x
      ensures DestroyRefs(RemoveFirst(adjacency[k], Vertex(x)), x) == RemoveAll(adjacency[k], Vertex(x))
    {
      RemoveFirstOfSingle(adjacency[k], Vertex(x));
      DestroyRefsAbsent(RemoveAll(adjacency[k], Vertex(x)), x);
    }
  }

  /** Two edges from 1 to 2, then `removeVertex(2)`: the list of 1 holds a destroyed vertex. */
  lemma RemoveVertexAsWrittenLeavesReference()
    ensures var adjacency := map[1 := [Vertex(2), Vertex(2)], 2 := []];
      AdjacencyWithoutAsWritten(adjacency, 2) == map[1 := [Destroyed]]
      && Closed<int, int>(AdjacencyWithoutAsWritten(adjacency, 2), map[1 := map[]])
      && !WellFormed<int, int>(AdjacencyWithoutAsWritten(adjacency, 2), map[1 := map[]])
  {
    var adjacency := map[1 := [Vertex(2), Vertex(2)], 2 := []];
    var adj := AdjacencyWithoutAsWritten(adjacency, 2);
    assert RemoveFirst([Vertex(2), Vertex(2)], Vertex(2)) == [Vertex(2)];
    assert DestroyRefs([Vertex(2)], 2) == [Destroyed];
    assert adj.Keys == {1};
    assert adj[1] == [Destroyed];
  }

  class Graph<T(==,!new), K(==,!new)> {
    var adjacency: map<T, seq<Neighbour<T>>>
    var outward: map<T, map<K, T>>

    /** Every vertex owns a set of outward edges. */
    predicate Shaped()
      reads this
    {
      adjacency.Keys == outward.Keys
    }

    /** Every reference stays inside the graph. */
    ghost predicate Valid()
      reads this
    {
      WellFormed(adjacency, outward)
    }

    constructor ()
      ensures adjacency == map[] && outward == map[]
      ensures Shaped() && Valid()
    {
      adjacency := map[];
      outward := map[];
    }

    /** `addVertex`: `putIfAbsent`, so an existing vertex keeps its list and edges. */
    method AddVertex(item: T)
      requires Shaped()
      modifies this
      ensures Shaped()
      ensures old(Valid()) ==> Valid()
      ensures item in old(adjacency) ==> adjacency == old(adjacency) && outward == old(outward)
      ensures item !in old(adjacency) ==>
        adjacency == old(adjacency)[item := []] && outward == old(outward)[item := map[]]
    {
      if item !in adjacency {
        adjacency := adjacency[item := []];
        outward := outward[item := map[]];
      }
    }

    /** `getVertexByItem`: the stored vertex equal to the item, or `null`. */
    function GetVertexByItem(item: T): (r: Option<T>)
      reads this
      ensures r.Some? <==> item in adjacency
      ensures r.Some? ==> r.value == item
    {
      if item in adjacency then Some(item) else None
    }

    /**
     * `Vertex.addEdge(to, value)`: `outwardEdges.add(new Edge(to, value))`.
     * A set keeps the edge it already has for that weight.
     */
    static function AddOutwardEdge(edges: map<K, T>, to: T, weight: K): (r: map<K, T>)
      ensures weight in r
      ensures weight in edges ==> r == edges
      ensures weight !in edges ==> r == edges[weight := to]
    {
      if weight in edges then edges else edges[weight := to]
    }

    /** `adjacencyList.putIfAbsent(v, new ArrayList<>())` on the lists alone. */
    static function WithList(adjacency: map<T, seq<Neighbour<T>>>, v: T): (r: map<T, seq<Neighbour<T>>>)
      ensures r.Keys == adjacency.Keys + {v}
      ensures forall k :: k in adjacency ==> r[k] == adjacency[k]
      ensures v !in adjacency ==> r[v] == []
    {
      if v in adjacency then adjacency else adjacency[v := []]
    }

    /** A new vertex starts with no outward edges. */
    static function WithEdgeSet(outward: map<T, map<K, T>>, v: T): (r: map<T, map<K, T>>)
      ensures r.Keys == outward.Keys + {v}
      ensures forall k :: k in outward ==> r[k] == outward[k]
      ensures v !in outward ==> r[v] == map[]
    {
      if v in outward then outward else outward[v := map[]]
    }

    /**
     * `addEdge(src, dst, weight, isBiDirectional)`: missing endpoints become
     * vertices; `dst` is appended to `src`'s list and `src` gets an edge
     * to `dst`; when bidirectional, `src` is appended to `dst`'s list and
     * `dst` gets an edge back, with the same weight. Lists may hold
     * duplicates; edge sets keep their edge for an existing weight.
     */
    method AddEdge(src: T, dst: T, weight: K, isBiDirectional: bool)
      requires Shaped()
      modifies this
      ensures Shaped()
      ensures old(Valid()) ==> Valid()
      ensures adjacency == ListsAfterEdge(old(adjacency), src, dst, isBiDirectional)
      ensures outward == EdgesAfterEdge(old(outward), src, dst, weight, isBiDirectional)
    {
      ghost var adj0 := adjacency;
      ghost var out0 := outward;
      AddVertex(src);
      AddVertex(dst);
      AppendEdge(src, dst, weight, isBiDirectional);
      AddEdgeKeepsWellFormed(adj0, out0, src, dst, weight, isBiDirectional);
    }

    /** The appends of `addEdge` once both endpoints are vertices. */
    method AppendEdge(src: T, dst: T, weight: K, isBiDirectional: bool)
      requires src in adjacency && dst in adjacency && Shaped()
      modifies this
      ensures adjacency == ListsAfterEdge(old(adjacency), src, dst, isBiDirectional)
      ensures outward == EdgesAfterEdge(old(outward), src, dst, weight, isBiDirectional)
    {
      adjacency := adjacency[src := adjacency[src] + [Vertex(dst)]];
      outward := outward[src := AddOutwardEdge(outward[src], dst, weight)];
      if isBiDirectional {
        outward := outward[dst := AddOutwardEdge(outward[dst], src, weight)];
        adjacency := adjacency[dst := adjacency[dst] + [Vertex(src)]];
      }
    }

    /** The lists after `addEdge`: `dst` appended to `src`'s, and back when bidirectional. */
    static function ListsAfterEdge(adjacency: map<T, seq<Neighbour<T>>>, src: T, dst: T, isBiDirectional: bool): (r: map<T, seq<Neighbour<T>>>)
      ensures r.Keys == adjacency.Keys + {src, dst}
      ensures forall k :: k in r && k != src && k != dst ==> r[k] == adjacency[k]
      ensures Vertex(dst) in r[src] && (isBiDirectional ==> Vertex(src) in r[dst])
    {
      var adjV := WithList(WithList(adjacency, src), dst);
      var adj1 := adjV[src := adjV[src] + [Vertex(dst)]];
      if isBiDirectional then adj1[dst := adj1[dst] + [Vertex(src)]] else adj1
    }

    /** The edge sets after `addEdge`: an edge of that weight from `src`, and back when bidirectional. */
    static function EdgesAfterEdge(outward: map<T, map<K, T>>, src: T, dst: T, weight: K, isBiDirectional: bool): (r: map<T, map<K, T>>)
      ensures r.Keys == outward.Keys + {src, dst}
      ensures forall k :: k in r && k != src && k != dst ==> r[k] == outward[k]
      ensures weight in r[src] && (isBiDirectional ==> weight in r[dst])
    {
      var outV := WithEdgeSet(WithEdgeSet(outward, src), dst);
      var out1 := outV[src := AddOutwardEdge(outV[src], dst, weight)];
      if isBiDirectional then out1[dst := AddOutwardEdge(out1[dst], src, weight)] else out1
    }

    /** An edge between two vertices, old or new, keeps every reference inside the graph. */
    static lemma AddEdgeKeepsWellFormed(adjacency: map<T, seq<Neighbour<T>>>, outward: map<T, map<K, T>>, src: T, dst: T, weight: K, isBiDirectional: bool)
      ensures WellFormed(adjacency, outward) ==>
        WellFormed(ListsAfterEdge(adjacency, src, dst, isBiDirectional),
                   EdgesAfterEdge(outward, src, dst, weight, isBiDirectional))
    {
      if !WellFormed(adjacency, outward) {
        return;
      }
      var adjS, outS := WithList(adjacency, src), WithEdgeSet(outward, src);
      AddVertexKeepsWellFormed(adjacency, outward, src);
      var adjV, outV := WithList(adjS, dst), WithEdgeSet(outS, dst);
      AddVertexKeepsWellFormed(adjS, outS, dst);
      var adj1 := adjV[src := adjV[src] + [Vertex(dst)]];
      AppendKeepsWellFormed(adjV, outV, src, dst);
      var out1 := outV[src := AddOutwardEdge(outV[src], dst, weight)];
      AddOutwardKeepsWellFormed(adj1, outV, src, dst, weight);
      if isBiDirectional {
        var adj2 := adj1[dst := adj1[dst] + [Vertex(src)]];
        AppendKeepsWellFormed(adj1, out1, dst, src);
        AddOutwardKeepsWellFormed(adj2, out1, dst, src, weight);
      }
    }

    static lemma AddVertexKeepsWellFormed(adjacency: map<T, seq<Neighbour<T>>>, outward: map<T, map<K, T>>, v: T)
      requires WellFormed(adjacency, outward)
      ensures WellFormed(WithList(adjacency, v), WithEdgeSet(outward, v))
    {
    }

    static lemma AppendKeepsWellFormed(adjacency: map<T, seq<Neighbour<T>>>, outward: map<T, map<K, T>>, a: T, b: T)
      requires WellFormed(adjacency, outward) && a in adjacency && b in adjacency
      ensures WellFormed(adjacency[a := adjacency[a] + [Vertex(b)]], outward)
    {
      var adj := adjacency[a := adjacency[a] + [Vertex(b)]];
      forall k, y: Neighbour<T> | k in adj && y in adj[k]
        ensures y.Vertex? ==> y.item in adj
      {
        if k == a && y != Vertex(b) {
          assert y in adjacency[a];
        }
      }
    }

    static lemma AddOutwardKeepsWellFormed(adjacency: map<T, seq<Neighbour<T>>>, outward: map<T, map<K, T>>, a: T, b: T, weight: K)
      requires WellFormed(adjacency, outward) && a in outward && b in outward
      ensures WellFormed(adjacency, outward[a := AddOutwardEdge(outward[a], b, weight)])
    {
    }

    /**
     * `removeVertex(item)` as written: nothing happens for an item not in the
     * graph; otherwise `List.remove` takes the first reference to it out of
     * every list, every edge into it is dropped, it is removed, and `destroy`
     * disconnects its edges and empties it. A list that held it twice still
     * refers to it, now destroyed, so the graph stays well formed only when
     * no list did; every live reference stays inside the graph in any case.
     */
    method RemoveVertex(item: T)
      requires Shaped()
      modifies this
      ensures Shaped()
      ensures item !in old(adjacency) ==> adjacency == old(adjacency) && outward == old(outward)
      ensures item in old(adjacency) ==>
        adjacency == AdjacencyWithoutAsWritten(old(adjacency), item) && outward == OutwardWithout(old(outward), item)
      ensures old(Closed(adjacency, outward)) ==> Closed(adjacency, outward)
      ensures old(Valid()) && (forall k :: k in old(adjacency) ==> multiset(old(adjacency)[k])[Vertex(item)] <= 1) ==> Valid()
    {
      if item !in adjacency {
        return;
      }
      ghost var adj0 := adjacency;
      ghost var out0 := outward;
      AdjacencyAfterDetachAsWritten(adj0, item);
      OutwardAfterDrop(out0, item);
      DetachFirstFromLists(item);
      DropEdgesInto(item);
      var vEdges := outward[item];
      adjacency := adjacency - {item};
      outward := outward - {item};
      Destroy(item, vEdges);
      if Closed(adj0, out0) {
        AsWrittenStaysClosed(adj0, out0, item);
      }
      if WellFormed(adj0, out0) && forall k :: k in adj0 ==> multiset(adj0[k])[Vertex(item)] <= 1 {
        AsWrittenAgreesWithoutDuplicates(adj0, item);
        RemovalForgetsVertex(adj0, out0, item);
      }
    }

    /**
     * `removeVertex` as intended: every reference to the item is taken out of
     * the lists, so the graph stays well formed.
     */
    method RemoveVertexCorrected(item: T)
      requires Shaped()
      modifies this
      ensures Shaped()
      ensures old(Valid()) ==> Valid()
      ensures item !in old(adjacency) ==> adjacency == old(adjacency) && outward == old(outward)
      ensures item in old(adjacency) ==>
        adjacency == AdjacencyWithout(old(adjacency), item) && outward == OutwardWithout(old(outward), item)
    {
      if item !in adjacency {
        return;
      }
      ghost var adj0 := adjacency;
      ghost var out0 := outward;
      AdjacencyAfterDetach(adj0, item);
      OutwardAfterDrop(out0, item);
      DetachEveryFromLists(item);
      DropEdgesInto(item);
      var vEdges := outward[item];
      adjacency := adjacency - {item};
      outward := outward - {item};
      Destroy(item, vEdges);
      if WellFormed(adj0, out0) {
        RemovalForgetsVertex(adj0, out0, item);
      }
    }

    /** `adjacencyList.values().forEach(list -> list.remove(v))`: the first occurrence in each list. */
    method DetachFirstFromLists(item: T)
      modifies this
      ensures outward == old(outward)
      ensures adjacency == map k | k in old(adjacency) :: RemoveFirst(old(adjacency)[k], Vertex(item))
    {
      var keys := adjacency.Keys;
      ghost var adj0 := adjacency;
      while keys != {}
        invariant keys <= adj0.Keys && adjacency.Keys == adj0.Keys
        invariant outward == old(outward) && adj0 == old(adjacency)
        invariant forall k :: k in adj0 && k !in keys ==> adjacency[k] == RemoveFirst(adj0[k], Vertex(item))
        invariant forall k :: k in keys ==> adjacency[k] == adj0[k]
        decreases keys
      {
        var k :| k in keys;
        adjacency := adjacency[k := RemoveFirst(adjacency[k], Vertex(item))];
        keys := keys - {k};
      }
    }

    /** The corrected detaching: every occurrence in each list. */
    method DetachEveryFromLists(item: T)
      modifies this
      ensures outward == old(outward)
      ensures adjacency == map k | k in old(adjacency) :: RemoveAll(old(adjacency)[k], Vertex(item))
    {
      var keys := adjacency.Keys;
      ghost var adj0 := adjacency;
      while keys != {}
        invariant keys <= adj0.Keys && adjacency.Keys == adj0.Keys
        invariant outward == old(outward) && adj0 == old(adjacency)
        invariant forall k :: k in adj0 && k !in keys ==> adjacency[k] == RemoveAll(adj0[k], Vertex(item))
        invariant forall k :: k in keys ==> adjacency[k] == adj0[k]
        decreases keys
      {
        var k :| k in keys;
        adjacency := adjacency[k := RemoveAll(adjacency[k], Vertex(item))];
        keys := keys - {k};
      }
    }

    /** `keySet().forEach(vertex -> vertex.outwardEdges.removeIf(e -> e.dest.equals(v)))`. */
    method DropEdgesInto(item: T)
      modifies this
      ensures adjacency == old(adjacency)
      ensures outward == map k | k in old(outward) :: DropEdgesTo(old(outward)[k], item)
    {
      var keys := outward.Keys;
      ghost var out0 := outward;
      while keys != {}
        invariant keys <= out0.Keys && outward.Keys == out0.Keys
        invariant adjacency == old(adjacency) && out0 == old(outward)
        invariant forall k :: k in out0 && k !in keys ==> outward[k] == DropEdgesTo(out0[k], item)
        invariant forall k :: k in keys ==> outward[k] == out0[k]
        decreases keys
      {
        var k :| k in keys;
        outward := outward[k := DropEdgesTo(outward[k], item)];
        keys := keys - {k};
      }
    }

    /**
     * `Vertex.destroy`: the item becomes `null`, which every list still
     * referring to the vertex sees, and each remaining edge of the vertex is
     * disconnected.
     */
    method Destroy(item: T, vEdges: map<K, T>)
      modifies this
      ensures adjacency == map k | k in old(adjacency) :: DestroyRefs(old(adjacency)[k], item)
      ensures outward == map k | k in old(outward) :: old(outward)[k] - WeightsInto(vEdges, k)
    {
      EmptyVertex(item);
      DisconnectEdges(vEdges);
    }

    /** `item = null`, seen through every reference to the vertex. */
    method EmptyVertex(item: T)
      modifies this
      ensures outward == old(outward)
      ensures adjacency == map k | k in old(adjacency) :: DestroyRefs(old(adjacency)[k], item)
    {
      var keys := adjacency.Keys;
      ghost var adj0 := adjacency;
      while keys != {}
        invariant keys <= adj0.Keys && adjacency.Keys == adj0.Keys
        invariant outward == old(outward) && adj0 == old(adjacency)
        invariant forall k :: k in adj0 && k !in keys ==> adjacency[k] == DestroyRefs(adj0[k], item)
        invariant forall k :: k in keys ==> adjacency[k] == adj0[k]
        decreases keys
      {
        var k :| k in keys;
        adjacency := adjacency[k := DestroyRefs(adjacency[k], item)];
        keys := keys - {k};
      }
    }

    /**
     * `Edge.disconnect` for each edge of the removed vertex: the edge of
     * equal weight leaves the set of its destination.
     */
    method DisconnectEdges(vEdges: map<K, T>)
      modifies this
      ensures adjacency == old(adjacency)
      ensures outward == map k | k in old(outward) :: old(outward)[k] - WeightsInto(vEdges, k)
    {
      var weights := vEdges.Keys;
      ghost var out0 := outward;
      while weights != {}
        invariant weights <= vEdges.Keys && outward.Keys == out0.Keys
        invariant adjacency == old(adjacency) && out0 == old(outward)
        invariant forall k :: k in out0 ==>
          outward[k] == out0[k] - (WeightsInto(vEdges, k) - weights)
        decreases weights
      {
        var w :| w in weights;
        ghost var before := outward;
        var dest := vEdges[w];
        if dest in outward {
          outward := outward[dest := outward[dest] - {w}];
        }
        weights := weights - {w};
        forall k | k in out0
          ensures outward[k] == out0[k] - (WeightsInto(vEdges, k) - weights)
        {
          if k == dest {
            assert WeightsInto(vEdges, k) - weights == (WeightsInto(vEdges, k) - (weights + {w})) + {w};
          } else {
            assert WeightsInto(vEdges, k) - weights == WeightsInto(vEdges, k) - (weights + {w});
          }
        }
      }
      forall k | k in out0
        ensures outward[k] == out0[k] - WeightsInto(vEdges, k)
      {
        assert WeightsInto(vEdges, k) - weights == WeightsInto(vEdges, k);
      }
    }
  }
}
