/**
 * Edge values of the graph package and the per-vertex degree counts that the
 * degree-preserving shuffle keeps.
 *
 * An edge has two endpoints, a directedness flag and an optional type tag.
 * Edges are immutable: `Clone` and `Flip` build new edges of the same kind.
 * Two undirected edges are equal whatever their orientation; `Canon` picks
 * one representative per equality class, and graphs store representatives.
 */
module Edges {

  type Vertex = nat

  /** The optional type tag of an edge (present only on the typed edges of a multigraph). */
  datatype EdgeType = Untyped | Typed(tag: int)

  datatype Edge = Edge(from: Vertex, to: Vertex, directed: bool, etype: EdgeType)

  /** What `clone` and `flip` keep of an edge: its directedness and its type. */
  datatype Kind = Kind(directed: bool, etype: EdgeType)

  function KindOf(e: Edge): Kind
  {
    Kind(e.directed, e.etype)
  }

  predicate IsSelfLoop(e: Edge)
  {
    e.from == e.to
  }

  /** An edge of the same kind with its endpoints reversed. */
  function Flip(e: Edge): Edge
  {
    e.(from := e.to, to := e.from)
  }

  /** An edge of the same kind with the endpoints replaced. */
  function Clone(e: Edge, from: Vertex, to: Vertex): Edge
  {
    e.(from := from, to := to)
  }

  /** The edge as used by a swap attempt: an undirected edge is flipped when the coin says so. */
  function Orient(e: Edge, flip: bool): Edge
  {
    if !e.directed && flip then Flip(e) else e
  }

  /** The representative of an edge's equality class. */
  function Canon(e: Edge): (c: Edge)
    ensures KindOf(c) == KindOf(e)
    ensures (c.from == e.from && c.to == e.to) || (c.from == e.to && c.to == e.from)
    ensures e.directed ==> c == e
    ensures IsSelfLoop(c) <==> IsSelfLoop(e)
    ensures !c.directed ==> c.from <= c.to
  {
    if e.directed || e.from <= e.to then e else Flip(e)
  }

  lemma CanonIdempotent(e: Edge)
    ensures Canon(Canon(e)) == Canon(e)
  {
  }

  /** Edge equality: directed edges compare endpoint by endpoint, undirected ones up to orientation. */
  predicate Same(a: Edge, b: Edge)
  {
    Canon(a) == Canon(b)
  }

  /** `Same` is exactly the equality the edge types define. */
  lemma SameIff(a: Edge, b: Edge)
    ensures Same(a, b) <==>
      KindOf(a) == KindOf(b) &&
      ((a.from == b.from && a.to == b.to) || (!a.directed && a.from == b.to && a.to == b.from))
  {
  }

  lemma FlipIsSame(e: Edge, flip: bool)
    ensures Same(Orient(e, flip), e)
  {
  }

  predicate Incident(e: Edge, v: Vertex)
  {
    e.from == v || e.to == v
  }

  // ---------------------------------------------------------------------------
  // Degrees.  An edge occupies two slots, its tail (`from`) and its head (`to`);
  // for directed edges the tail counts towards out-degree and the head towards
  // in-degree.  A vertex's degree counts the slots it occupies, so a self-loop
  // counts twice.

  datatype Slot = Tail | Head | DirectedTail | DirectedHead

  predicate At(e: Edge, s: Slot, v: Vertex)
  {
    match s
    case Tail => e.from == v
    case Head => e.to == v
    case DirectedTail => e.directed && e.from == v
    case DirectedHead => e.directed && e.to == v
  }

  function Tally(e: Edge, s: Slot, v: Vertex): nat
  {
    if At(e, s, v) then 1 else 0
  }

  /** The edges of `E` that occupy slot `s` at vertex `v`. */
  function Ends(E: set<Edge>, s: Slot, v: Vertex): set<Edge>
  {
    set e | e in E && At(e, s, v)
  }

  /** Number of edge endpoints at `v` (in plus out degree; plain degree for undirected edges). */
  function Degree(E: set<Edge>, v: Vertex): nat
  {
    |Ends(E, Tail, v)| + |Ends(E, Head, v)|
  }

  function OutDegree(E: set<Edge>, v: Vertex): nat
  {
    |Ends(E, DirectedTail, v)|
  }

  function InDegree(E: set<Edge>, v: Vertex): nat
  {
    |Ends(E, DirectedHead, v)|
  }

  /** Endpoint slots of one edge at `v`. */
  function Incidence(e: Edge, v: Vertex): nat
  {
    Tally(e, Tail, v) + Tally(e, Head, v)
  }

  predicate AllDirected(E: set<Edge>)
  {
    forall e :: e in E ==> e.directed
  }

  /** The edges of one type (`Multigraph.edges(type)`). */
  function OfType(E: set<Edge>, t: EdgeType): set<Edge>
  {
    set e | e in E && e.etype == t
  }

  function Kinds(E: set<Edge>): set<Kind>
  {
    set e | e in E :: KindOf(e)
  }

  /** The vertices that some edge of `E` touches. */
  function Endpoints(E: set<Edge>): set<Vertex>
  {
    (set e | e in E :: e.from) + (set e | e in E :: e.to)
  }

  lemma CanonIncidence(e: Edge, v: Vertex)
    ensures Incidence(Canon(e), v) == Incidence(e, v)
  {
    if !e.directed && e.from > e.to {
      assert Canon(e) == Flip(e);
    }
  }

  /** Adding an edge that is not yet present raises the count of a slot by that edge's tally. */
  lemma EndsInsert(E: set<Edge>, x: Edge, s: Slot, v: Vertex)
    requires x !in E
    ensures |Ends(E + {x}, s, v)| == |Ends(E, s, v)| + Tally(x, s, v)
  {
    if At(x, s, v) {
      assert Ends(E + {x}, s, v) == Ends(E, s, v) + {x};
    } else {
      assert Ends(E + {x}, s, v) == Ends(E, s, v);
    }
  }

  /** Slot counts add up over disjoint edge sets. */
  lemma EndsUnion(A: set<Edge>, B: set<Edge>, s: Slot, v: Vertex)
    requires A !! B
    ensures |Ends(A + B, s, v)| == |Ends(A, s, v)| + |Ends(B, s, v)|
  {
    assert Ends(A + B, s, v) == Ends(A, s, v) + Ends(B, s, v);
    assert Ends(A, s, v) !! Ends(B, s, v);
  }

  /** Degrees add up over disjoint edge sets: the degree of a graph is the sum over any partition. */
  lemma DegreeUnion(A: set<Edge>, B: set<Edge>, v: Vertex)
    requires A !! B
    ensures Degree(A + B, v) == Degree(A, v) + Degree(B, v)
    ensures OutDegree(A + B, v) == OutDegree(A, v) + OutDegree(B, v)
    ensures InDegree(A + B, v) == InDegree(A, v) + InDegree(B, v)
  {
    EndsUnion(A, B, Tail, v);
    EndsUnion(A, B, Head, v);
    EndsUnion(A, B, DirectedTail, v);
    EndsUnion(A, B, DirectedHead, v);
  }

  /**
   * Replacing two present edges by two absent ones changes the count of a slot
   * by the tallies of the edges added minus those removed.
   */
  lemma EndsReplace(E: set<Edge>, c1: Edge, c2: Edge, n1: Edge, n2: Edge, s: Slot, v: Vertex)
    requires c1 in E && c2 in E && c1 != c2
    requires n1 !in E && n2 !in E && n1 != n2
    ensures |Ends(E - {c1, c2} + {n1, n2}, s, v)| + Tally(c1, s, v) + Tally(c2, s, v)
         == |Ends(E, s, v)| + Tally(n1, s, v) + Tally(n2, s, v)
  {
    var R := E - {c1, c2};
    EndsInsert(R, c1, s, v);
    EndsInsert(R + {c1}, c2, s, v);
    assert R + {c1} + {c2} == E;
    EndsInsert(R, n1, s, v);
    EndsInsert(R + {n1}, n2, s, v);
    assert R + {n1} + {n2} == E - {c1, c2} + {n1, n2};
  }

  /** A subset is no larger than its superset. */
  lemma {:induction false} SubsetSize<T>(A: set<T>, B: set<T>)
    requires A <= B
    ensures |A| <= |B|
  {
    if A != {} {
      var x :| x in A;
      SubsetSize(A - {x}, B - {x});
    }
  }
}
