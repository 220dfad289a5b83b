/**
 * The collaborators the graph utilities call, modelled by their contracts only:
 * a mutable graph (a vertex set and a set of edges with set semantics under
 * edge equality), an edge indexer that hands out fresh ids on first lookup,
 * and iteration over a set in some order the collection chooses.
 */
module GraphModel {
  import opened Edges

  /**
   * A mutable graph.  Edges are kept as canonical representatives, so
   * `contains`, `add` and `remove` compare undirected edges up to orientation,
   * and a graph never holds two equal edges.
   */
  class Graph {
    var verts: set<Vertex>
    var edges: set<Edge>

    ghost predicate Valid()
      reads this
    {
      && (forall e :: e in edges ==> Canon(e) == e)
      && (forall e :: e in edges ==> e.from in verts && e.to in verts)
    }

    /** An empty graph. */
    constructor ()
      ensures Valid() && verts == {} && edges == {}
    {
      verts, edges := {}, {};
    }

    function Order(): nat
      reads this
    {
      |verts|
    }

    function Size(): nat
      reads this
    {
      |edges|
    }

    /** Membership under edge equality. */
    predicate Contains(e: Edge)
      reads this
    {
      Canon(e) in edges
    }

    /** Adds an edge, and its endpoints as vertices; false if an equal edge was present. */
    method Add(e: Edge) returns (added: bool)
      requires Valid()
      modifies this
      ensures Valid()
      ensures added <==> !old(Contains(e))
      ensures edges == old(edges) + {Canon(e)}
      ensures verts == old(verts) + {e.from, e.to}
    {
      added := Canon(e) !in edges;
      edges := edges + {Canon(e)};
      verts := verts + {e.from, e.to};
    }

    /** Removes the edge equal to `e`, if any; vertices stay. */
    method Remove(e: Edge) returns (removed: bool)
      requires Valid()
      modifies this
      ensures Valid()
      ensures removed <==> old(Contains(e))
      ensures edges == old(edges) - {Canon(e)} && verts == old(verts)
    {
      removed := Canon(e) in edges;
      edges := edges - {Canon(e)};
    }

    /** Adds a vertex; false if it was present. */
    method AddVertex(v: Vertex) returns (added: bool)
      requires Valid()
      modifies this
      ensures Valid()
      ensures added <==> v !in old(verts)
      ensures verts == old(verts) + {v} && edges == old(edges)
    {
      added := v !in verts;
      verts := verts + {v};
    }

    /** The edges with an endpoint at `v` (`getAdjacencyList`). */
    function AdjacencyList(v: Vertex): set<Edge>
      reads this
    {
      set e | e in edges && Incident(e, v)
    }

    /** The edges of one type (`edges(type)` of a multigraph). */
    function EdgesOfType(t: EdgeType): set<Edge>
      reads this
    {
      OfType(edges, t)
    }

    /** The types that occur on some edge (`edgeTypes()` of a multigraph). */
    function EdgeTypes(): set<EdgeType>
      reads this
    {
      set e | e in edges :: e.etype
    }
  }

  /**
   * An indexer of edges: an injective map that gives an edge seen for the first
   * time the next unused id, as the hash-based indexer does.  `keyOf` is its
   * reverse lookup from an id to the edge that holds it.
   */
  class Indexer {
    var ids: map<Edge, nat>
    ghost var keyOf: map<nat, Edge>

    ghost predicate Valid()
      reads this
    {
      forall e :: e in ids ==> Canon(e) == e && ids[e] < |ids| && ids[e] in keyOf && keyOf[ids[e]] == e
    }

    constructor ()
      ensures Valid() && ids == map[]
    {
      ids := map[];
      keyOf := map[];
    }

    /** Distinct edges have distinct ids. */
    lemma Injective()
      requires Valid()
      ensures forall a, b :: a in ids && b in ids && a != b ==> ids[a] != ids[b]
    {
    }

    /** The id of `e`, assigning `|ids|` on the first lookup of an edge equal to it. */
    method Index(e: Edge) returns (id: nat)
      requires Valid()
      modifies this
      ensures Valid()
      ensures Canon(e) in ids && id == ids[Canon(e)]
      ensures Canon(e) in old(ids) ==> ids == old(ids)
      ensures Canon(e) !in old(ids) ==> id == old(|ids|) && ids == old(ids)[Canon(e) := id]
      ensures Extends(old(ids), ids) && ids.Keys == old(ids.Keys) + {Canon(e)}
    {
      var c := Canon(e);
      CanonIdempotent(e);
      if c in ids {
        id := ids[c];
      } else {
        id := |ids|;
        ghost var before := ids;
        ids := ids[c := id];
        keyOf := keyOf[id := c];
        assert ids.Keys == before.Keys + {c};
        assert |ids| == |before| + 1;
        forall a | a in ids
          ensures Canon(a) == a && ids[a] < |ids| && ids[a] in keyOf && keyOf[ids[a]] == a
        {
          if a != c { assert a in before; }
        }
      }
    }
  }

  /** True when the map `m2` keeps every entry of `m1`. */
  ghost predicate Extends<K, V>(m1: map<K, V>, m2: map<K, V>)
  {
    forall k :: k in m1 ==> k in m2 && m2[k] == m1[k]
  }

  lemma ExtendsTrans<K, V>(m1: map<K, V>, m2: map<K, V>, m3: map<K, V>)
    requires Extends(m1, m2) && Extends(m2, m3)
    ensures Extends(m1, m3)
  {
  }

  ghost predicate Distinct<T>(xs: seq<T>)
  {
    forall p, q :: 0 <= p < q < |xs| ==> xs[p] != xs[q]
  }

  /**
   * Iteration over a set: the elements of `s`, each once, in an order the
   * collection chooses (any order may come out).
   */
  method Enumerate<T(==)>(s: set<T>) returns (xs: seq<T>)
    ensures |xs| == |s| && Distinct(xs)
    ensures forall x :: x in xs <==> x in s
  {
    xs := [];
    var rest := s;
    while rest != {}
      invariant rest <= s && Distinct(xs)
      invariant forall x :: x in s <==> x in xs || x in rest
      invariant forall x :: x in xs ==> x !in rest
      invariant |xs| + |rest| == |s|
      decreases |rest|
    {
      var x :| x in rest;
      xs := xs + [x];
      rest := rest - {x};
    }
  }
}
