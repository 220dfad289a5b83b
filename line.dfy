/**
 * The line graph of a graph: one vertex per edge (its id in an edge
 * indexer), and an undirected, untyped edge between the ids of every two
 * distinct edges that share an endpoint.
 */
module LineSpec {
  import opened Edges
  import opened GraphModel

  /** Two edges meet at a vertex. */
  predicate Adjacent(a: Edge, b: Edge)
  {
    a.from == b.from || a.from == b.to || a.to == b.from || a.to == b.to
  }

  /** The plain undirected edge `SimpleEdge(i, j)` of the line graph. */
  function LineEdge(i: Vertex, j: Vertex): Edge
  {
    Edge(i, j, false, Untyped)
  }

  ghost predicate Indexed(P: set<(Edge, Edge)>, ids: map<Edge, nat>)
  {
    forall pr :: pr in P ==> pr.0 in ids && pr.1 in ids
  }

  /** The line-graph edge, as stored, between the ids of `a` and `b`. */
  ghost function Link(ids: map<Edge, nat>, a: Edge, b: Edge): Edge
    requires a in ids && b in ids
  {
    Canon(LineEdge(ids[a], ids[b]))
  }

  /** The line-graph edges that the linked pairs `P` stand for. */
  ghost function Links(P: set<(Edge, Edge)>, ids: map<Edge, nat>): set<Edge>
    requires Indexed(P, ids)
  {
    set pr | pr in P :: Link(ids, pr.0, pr.1)
  }

  /** The edges of the line graph of `E` under the ids `ids`. */
  ghost function LineEdges(E: set<Edge>, ids: map<Edge, nat>): set<Edge>
    requires E <= ids.Keys
  {
    set a, b | a in E && b in E && a != b && Adjacent(a, b) :: Link(ids, a, b)
  }

  /** The pair is linked in one orientation or the other. */
  ghost predicate Covered(P: set<(Edge, Edge)>, a: Edge, b: Edge)
  {
    (a, b) in P || (b, a) in P
  }

  /** `a` and `b` meet at an endpoint of `a` that lies in `S`. */
  predicate SharedIn(a: Edge, b: Edge, S: set<Vertex>)
  {
    (a.from in S && Incident(b, a.from)) || (a.to in S && Incident(b, a.to))
  }

  /** The edges of `E` with an endpoint in `S`. */
  ghost function IncidentTo(E: set<Edge>, S: set<Vertex>): set<Edge>
  {
    set e | e in E && (e.from in S || e.to in S)
  }

  /** Each of the first `p` listed edges paired with every edge listed before it. */
  ghost function Below(adj: seq<Edge>, p: nat): set<(Edge, Edge)>
    requires p <= |adj|
  {
    if p == 0 then {} else Below(adj, p - 1) + Row(adj, p - 1, p - 1)
  }

  /** Edge `p` paired with each of the first `q` listed edges. */
  ghost function Row(adj: seq<Edge>, p: nat, q: nat): set<(Edge, Edge)>
    requires p < |adj| && q <= |adj|
  {
    if q == 0 then {} else Row(adj, p, q - 1) + {(adj[p], adj[q - 1])}
  }

  /** The line-graph edges from edge `p` to each of the first `q` listed edges. */
  ghost function RowLinks(adj: seq<Edge>, ids: map<Edge, nat>, p: nat, q: nat): set<Edge>
    requires p < |adj| && q <= |adj| && adj[p] in ids && forall k :: 0 <= k < q ==> adj[k] in ids
  {
    if q == 0 then {} else RowLinks(adj, ids, p, q - 1) + {Link(ids, adj[p], adj[q - 1])}
  }

  /** The ids at the ends of those line-graph edges. */
  ghost function RowIds(adj: seq<Edge>, ids: map<Edge, nat>, p: nat, q: nat): set<Vertex>
    requires p < |adj| && q <= |adj| && adj[p] in ids && forall k :: 0 <= k < q ==> adj[k] in ids
  {
    if q == 0 then {} else RowIds(adj, ids, p, q - 1) + {ids[adj[p]], ids[adj[q - 1]]}
  }

  /** The first `p` listed elements. */
  ghost function Listed<T>(adj: seq<T>, p: nat): set<T>
    requires p <= |adj|
  {
    if p == 0 then {} else Listed(adj, p - 1) + {adj[p - 1]}
  }

  /** Good pairs: two distinct edges of `E` that meet, both with ids. */
  ghost predicate PairsOf(P: set<(Edge, Edge)>, E: set<Edge>)
  {
    forall pr :: pr in P ==> pr.0 in E && pr.1 in E && pr.0 != pr.1 && Adjacent(pr.0, pr.1)
  }

  /**
   * The line graph built so far: its edges are the links of the pairs `P`
   * linked so far, and its vertices the endpoints of those edges.
   */
  ghost predicate LineState(L: set<Edge>, V: set<Vertex>, P: set<(Edge, Edge)>, ids: map<Edge, nat>)
  {
    Indexed(P, ids) && L == Links(P, ids) && V == Endpoints(L)
  }

  // ---------------------------------------------------------------------------

  lemma LineStateStarts(ids: map<Edge, nat>)
    ensures LineState({}, {}, {}, ids)
  {
  }

  /** In a list of distinct canonical edges, no edge listed before edge `p` equals it. */
  lemma NoEarlierSame(adj: seq<Edge>, p: nat)
    requires p < |adj| && Distinct(adj) && forall e :: e in adj ==> Canon(e) == e
    ensures forall k :: 0 <= k < p ==> !Same(adj[p], adj[k])
  {
    forall k | 0 <= k < p
      ensures !Same(adj[p], adj[k])
    {
      assert adj[p] in adj && adj[k] in adj;
    }
  }

  /** Linking edge `p` to one more listed edge adds one line-graph edge and its two ends. */
  lemma RowLinksStep(adj: seq<Edge>, ids: map<Edge, nat>, p: nat, q: nat,
                     L: set<Edge>, V: set<Vertex>, P: set<(Edge, Edge)>)
    requires p < |adj| && q < |adj| && adj[p] in ids && forall k :: 0 <= k <= q ==> adj[k] in ids
    ensures L + RowLinks(adj, ids, p, q + 1) == (L + RowLinks(adj, ids, p, q)) + {Link(ids, adj[p], adj[q])}
    ensures V + RowIds(adj, ids, p, q + 1) == (V + RowIds(adj, ids, p, q)) + {ids[adj[p]], ids[adj[q]]}
    ensures P + Row(adj, p, q + 1) == (P + Row(adj, p, q)) + {(adj[p], adj[q])}
  {
  }

  /** Linking a row's pairs adds exactly the row's line-graph edges. */
  lemma {:induction false} RowLinksAre(P: set<(Edge, Edge)>, ids: map<Edge, nat>, adj: seq<Edge>, p: nat, q: nat)
    requires Indexed(P, ids)
    requires p < |adj| && q <= |adj| && adj[p] in ids && forall k :: 0 <= k < q ==> adj[k] in ids
    ensures Indexed(P + Row(adj, p, q), ids)
    ensures Links(P + Row(adj, p, q), ids) == Links(P, ids) + RowLinks(adj, ids, p, q)
  {
    if q == 0 {
      assert P + Row(adj, p, q) == P;
    } else {
      RowLinksAre(P, ids, adj, p, q - 1);
      RowLinksStep(adj, ids, p, q - 1, Links(P, ids), {}, P);
      var Q, pr := P + Row(adj, p, q - 1), (adj[p], adj[q - 1]);
      LinksAdd(Q, ids, pr.0, pr.1);
      var R, l := RowLinks(adj, ids, p, q - 1), Link(ids, pr.0, pr.1);
      assert Links(P + Row(adj, p, q), ids) == Links(Q + {pr}, ids) == (Links(P, ids) + R) + {l};
    }
  }

  /** Linking one more pair adds its line-graph edge. */
  lemma LinksAdd(P: set<(Edge, Edge)>, ids: map<Edge, nat>, a: Edge, b: Edge)
    requires Indexed(P, ids) && a in ids && b in ids
    ensures Indexed(P + {(a, b)}, ids)
    ensures Links(P + {(a, b)}, ids) == Links(P, ids) + {Link(ids, a, b)}
  {
  }

  /** The row's line-graph edges have exactly the row's ids as endpoints. */
  lemma {:induction false} RowIdsAre(L: set<Edge>, ids: map<Edge, nat>, adj: seq<Edge>, p: nat, q: nat)
    requires p < |adj| && q <= |adj| && adj[p] in ids && forall k :: 0 <= k < q ==> adj[k] in ids
    ensures Endpoints(L + RowLinks(adj, ids, p, q)) == Endpoints(L) + RowIds(adj, ids, p, q)
  {
    if q == 0 {
      assert L + RowLinks(adj, ids, p, q) == L;
    } else {
      RowIdsAre(L, ids, adj, p, q - 1);
      RowLinksStep(adj, ids, p, q - 1, L, Endpoints(L), {});
      var c := Link(ids, adj[p], adj[q - 1]);
      EndpointsAdd(L + RowLinks(adj, ids, p, q - 1), c);
      assert {c.from, c.to} == {ids[adj[p]], ids[adj[q - 1]]};
    }
  }

  /** Adding the links of a row to the line graph built so far links the pairs of that row. */
  lemma RowState(L: set<Edge>, V: set<Vertex>, P: set<(Edge, Edge)>, ids: map<Edge, nat>,
                 adj: seq<Edge>, p: nat, q: nat)
    requires LineState(L, V, P, ids)
    requires p < |adj| && q <= |adj| && adj[p] in ids && forall k :: 0 <= k < q ==> adj[k] in ids
    ensures LineState(L + RowLinks(adj, ids, p, q), V + RowIds(adj, ids, p, q), P + Row(adj, p, q), ids)
  {
    RowLinksAre(P, ids, adj, p, q);
    RowIdsAre(L, ids, adj, p, q);
  }

  /** The line graph built so far is a well-formed graph. */
  lemma LineStateValid(L: set<Edge>, V: set<Vertex>, P: set<(Edge, Edge)>, ids: map<Edge, nat>)
    requires LineState(L, V, P, ids)
    ensures forall c :: c in L ==> Canon(c) == c && c.from in V && c.to in V
  {
    forall c | c in L
      ensures Canon(c) == c
    {
      var pr :| pr in P && c == Link(ids, pr.0, pr.1);
      CanonIdempotent(LineEdge(ids[pr.0], ids[pr.1]));
    }
  }

  /** New ids leave the line graph built so far as it is. */
  lemma LineStateExtend(L: set<Edge>, V: set<Vertex>, P: set<(Edge, Edge)>, ids: map<Edge, nat>, ids': map<Edge, nat>)
    requires LineState(L, V, P, ids) && Extends(ids, ids')
    ensures LineState(L, V, P, ids')
  {
    LinksExtend(P, ids, ids');
  }

  lemma LinkSymmetric(ids: map<Edge, nat>, a: Edge, b: Edge)
    requires a in ids && b in ids
    ensures Link(ids, a, b) == Link(ids, b, a)
  {
    assert Same(LineEdge(ids[a], ids[b]), LineEdge(ids[b], ids[a]));
  }

  /** Listing one more edge adds its row to the linked pairs and the edge to the indexed ones. */
  lemma ListStep(adj: seq<Edge>, p: nat, P: set<(Edge, Edge)>, K: set<Edge>)
    requires p < |adj|
    ensures P + Below(adj, p + 1) == (P + Below(adj, p)) + Row(adj, p, p)
    ensures K + Listed(adj, p + 1) == (K + Listed(adj, p)) + {adj[p]}
  {
  }

  /** Ids handed out later do not move the line-graph edges already added. */
  lemma LinksExtend(P: set<(Edge, Edge)>, ids: map<Edge, nat>, ids': map<Edge, nat>)
    requires Indexed(P, ids) && Extends(ids, ids')
    ensures Indexed(P, ids') && Links(P, ids') == Links(P, ids)
  {
  }

  /** Each row pairs edge `p` with distinct edges listed before it. */
  lemma {:induction false} RowPairs(adj: seq<Edge>, p: nat, q: nat, E: set<Edge>, v: Vertex)
    requires q <= p < |adj| && Distinct(adj) && forall e :: e in adj ==> e in E && Incident(e, v)
    ensures PairsOf(Row(adj, p, q), E)
  {
    if q > 0 {
      RowPairs(adj, p, q - 1, E, v);
      assert adj[p] in adj && adj[q - 1] in adj;
    }
  }

  lemma {:induction false} BelowPairs(adj: seq<Edge>, p: nat, E: set<Edge>, v: Vertex)
    requires p <= |adj| && Distinct(adj) && forall e :: e in adj ==> e in E && Incident(e, v)
    ensures PairsOf(Below(adj, p), E)
  {
    if p > 0 {
      BelowPairs(adj, p - 1, E, v);
      RowPairs(adj, p - 1, p - 1, E, v);
    }
  }

  lemma {:induction false} RowHas(adj: seq<Edge>, p: nat, q: nat)
    requires p < |adj| && q <= |adj|
    ensures forall y :: 0 <= y < q ==> (adj[p], adj[y]) in Row(adj, p, q)
  {
    if q > 0 {
      RowHas(adj, p, q - 1);
    }
  }

  lemma {:induction false} BelowHas(adj: seq<Edge>, p: nat)
    requires p <= |adj|
    ensures forall x, y :: 0 <= y < x < p ==> (adj[x], adj[y]) in Below(adj, p)
  {
    if p > 0 {
      BelowHas(adj, p - 1);
      RowHas(adj, p - 1, p - 1);
    }
  }

  lemma {:induction false} ListedHas<T>(adj: seq<T>, p: nat)
    requires p <= |adj|
    ensures forall k :: 0 <= k < p ==> adj[k] in Listed(adj, p)
    ensures forall e :: e in Listed(adj, p) ==> e in adj
  {
    if p > 0 {
      ListedHas(adj, p - 1);
    }
  }

  /**
   * The pairs linked around one vertex: every two distinct edges of the
   * adjacency list are linked in one orientation, and only such pairs are.
   */
  lemma BelowCovers(adj: seq<Edge>, E: set<Edge>, v: Vertex)
    requires Distinct(adj) && forall e :: e in adj ==> e in E && Incident(e, v)
    ensures PairsOf(Below(adj, |adj|), E)
    ensures forall a, b :: a in adj && b in adj && a != b ==> Covered(Below(adj, |adj|), a, b)
  {
    BelowPairs(adj, |adj|, E, v);
    BelowHas(adj, |adj|);
    forall a, b | a in adj && b in adj && a != b
      ensures Covered(Below(adj, |adj|), a, b)
    {
      var x :| 0 <= x < |adj| && adj[x] == a;
      var y :| 0 <= y < |adj| && adj[y] == b;
    }
  }

  /** All listed elements. */
  lemma ListedAll<T>(adj: seq<T>)
    ensures Listed(adj, |adj|) == set e | e in adj
  {
    ListedHas(adj, |adj|);
    forall e | e in adj
      ensures e in Listed(adj, |adj|)
    {
      var k :| 0 <= k < |adj| && adj[k] == e;
    }
  }

  /** A set of good pairs that covers every pair of meeting edges gives exactly the line graph. */
  lemma LinksCover(P: set<(Edge, Edge)>, E: set<Edge>, ids: map<Edge, nat>)
    requires E <= ids.Keys && Indexed(P, ids) && PairsOf(P, E)
    requires forall a, b :: a in E && b in E && a != b && Adjacent(a, b) ==> Covered(P, a, b)
    ensures Links(P, ids) == LineEdges(E, ids)
  {
    forall c | c in LineEdges(E, ids)
      ensures c in Links(P, ids)
    {
      var a, b :| a in E && b in E && a != b && Adjacent(a, b) && c == Link(ids, a, b);
      if (a, b) !in P {
        assert (b, a) in P;
        LinkSymmetric(ids, a, b);
      }
    }
  }

  /**
   * Once every endpoint has been visited, every edge has been met and the
   * linked pairs give exactly the line graph.
   */
  lemma VisitedAll(E: set<Edge>, S: set<Vertex>, P: set<(Edge, Edge)>, ids: map<Edge, nat>)
    requires forall e :: e in E ==> e.from in S && e.to in S
    requires E <= ids.Keys && Indexed(P, ids) && PairsOf(P, E)
    requires forall a, b :: a in E && b in E && a != b && SharedIn(a, b, S) ==> Covered(P, a, b)
    ensures IncidentTo(E, S) == E && Links(P, ids) == LineEdges(E, ids)
  {
    forall a, b | a in E && b in E && a != b && Adjacent(a, b)
      ensures Covered(P, a, b)
    {
      SharedInAll(E, S, a, b);
    }
    LinksCover(P, E, ids);
  }

  /**
   * Under an injective indexer the line graph is simple: no self-loop, and
   * every edge undirected and untyped.
   */
  lemma LineEdgesSimple(E: set<Edge>, ids: map<Edge, nat>)
    requires E <= ids.Keys
    requires forall a, b :: a in ids && b in ids && a != b ==> ids[a] != ids[b]
    ensures forall c :: c in LineEdges(E, ids) ==> !IsSelfLoop(c) && !c.directed && c.etype == Untyped
  {
  }

  /**
   * The vertices the line graph touches are the ids of the edges that meet
   * some other edge: an edge meeting no other edge gets no vertex.
   */
  lemma LineVertices(E: set<Edge>, ids: map<Edge, nat>)
    requires E <= ids.Keys
    ensures Endpoints(LineEdges(E, ids)) == set a, b | a in E && b in E && a != b && Adjacent(a, b) :: ids[a]
  {
    var L := LineEdges(E, ids);
    var W := set a, b | a in E && b in E && a != b && Adjacent(a, b) :: ids[a];
    forall w | w in Endpoints(L)
      ensures w in W
    {
      var c :| c in L && (c.from == w || c.to == w);
      var a, b :| a in E && b in E && a != b && Adjacent(a, b) && c == Link(ids, a, b);
      if ids[a] != w {
        assert ids[b] == w;
        assert Adjacent(b, a);
      }
    }
    forall w | w in W
      ensures w in Endpoints(L)
    {
      var a, b :| a in E && b in E && a != b && Adjacent(a, b) && w == ids[a];
      var c := Link(ids, a, b);
      assert c in L;
      assert c.from == w || c.to == w;
    }
  }

  lemma EndpointsAdd(E: set<Edge>, c: Edge)
    ensures Endpoints(E + {c}) == Endpoints(E) + {c.from, c.to}
  {
  }

  /** Every endpoint of an edge of `E` is in `S`: two edges of `E` that meet, meet in `S`. */
  lemma SharedInAll(E: set<Edge>, S: set<Vertex>, a: Edge, b: Edge)
    requires a in E && forall e :: e in E ==> e.from in S && e.to in S
    requires Adjacent(a, b)
    ensures SharedIn(a, b, S)
  {
  }

  /** Visiting one more vertex `v` covers the pairs that meet at `v`. */
  lemma CoverStep(E: set<Edge>, S: set<Vertex>, v: Vertex, adj: seq<Edge>, P: set<(Edge, Edge)>, B: set<(Edge, Edge)>)
    requires forall a, b :: a in E && b in E && a != b && SharedIn(a, b, S) ==> Covered(P, a, b)
    requires forall e :: e in E && Incident(e, v) ==> e in adj
    requires forall a, b :: a in adj && b in adj && a != b ==> Covered(B, a, b)
    ensures forall a, b :: a in E && b in E && a != b && SharedIn(a, b, S + {v}) ==> Covered(P + B, a, b)
  {
    forall a, b | a in E && b in E && a != b && SharedIn(a, b, S + {v})
      ensures Covered(P + B, a, b)
    {
      if !SharedIn(a, b, S) {
        assert Incident(a, v) && Incident(b, v);
      }
    }
  }

  /** The edges touching the visited vertices, one vertex more, on top of the keys `K`. */
  lemma VisitStep(E: set<Edge>, S: set<Vertex>, v: Vertex, adj: seq<Edge>, K: set<Edge>)
    requires forall e :: e in adj <==> e in E && Incident(e, v)
    ensures IncidentTo(E, S + {v}) == IncidentTo(E, S) + (set e | e in adj)
    ensures K + IncidentTo(E, S + {v}) == (K + IncidentTo(E, S)) + (set e | e in adj)
  {
  }
}
