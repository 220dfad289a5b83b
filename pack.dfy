/**
 * Vertex-id compaction: relabelling the vertices of a graph onto
 * `0 .. order-1` through a bijection, and what that keeps of the edges.
 */
module PackSpec {
  import opened Edges
  import opened GraphModel

  /** The contiguous ids `0 .. n-1`. */
  function Range(n: nat): (r: set<Vertex>)
    ensures forall v: Vertex :: v in r <==> v < n
  {
    if n == 0 then {} else Range(n - 1) + {n - 1}
  }

  lemma {:induction false} RangeSize(n: nat)
    ensures |Range(n)| == n
  {
    if n > 0 {
      RangeSize(n - 1);
    }
  }

  /** Ids are all below the vertex count exactly when they are `0 .. count-1`. */
  lemma ContiguousIff(V: set<Vertex>)
    ensures (forall v :: v in V ==> v < |V|) <==> V == Range(|V|)
  {
    if forall v :: v in V ==> v < |V| {
      assert V <= Range(|V|);
      RangeSize(|V|);
      SubsetEqual(V, Range(|V|));
    }
  }

  /** A subset as large as its superset is the superset. */
  lemma SubsetEqual<T>(A: set<T>, B: set<T>)
    requires A <= B && |A| == |B|
    ensures A == B
  {
    assert B == A + (B - A) && A !! (B - A);
    assert B - A == {};
  }

  /** No two keys share a value. */
  ghost predicate Injective(m: map<Vertex, Vertex>)
  {
    forall a, b :: a in m && b in m && a != b ==> m[a] != m[b]
  }

  /** `m` maps `V` one to one onto `0 .. |V|-1`. */
  ghost predicate Bijection(m: map<Vertex, Vertex>, V: set<Vertex>)
  {
    m.Keys == V && Injective(m) && m.Values == Range(|V|)
  }

  /** The edge with both endpoints translated through `m` (`clone(vMap.get(from), vMap.get(to))`). */
  function Relabel(m: map<Vertex, Vertex>, e: Edge): (r: Edge)
    requires e.from in m && e.to in m
    ensures KindOf(r) == KindOf(e) && r.from == m[e.from] && r.to == m[e.to]
  {
    Clone(e, m[e.from], m[e.to])
  }

  ghost predicate Covers(m: map<Vertex, Vertex>, E: set<Edge>)
  {
    forall e :: e in E ==> e.from in m && e.to in m
  }

  /** The edges of `E` as they are stored after relabelling. */
  ghost function RelabelAll(m: map<Vertex, Vertex>, E: set<Edge>): set<Edge>
    requires Covers(m, E)
  {
    set e | e in E :: Canon(Relabel(m, e))
  }

  /** Relabelling through an injective map keeps distinct edges distinct. */
  lemma RelabelInjective(m: map<Vertex, Vertex>, a: Edge, b: Edge)
    requires Injective(m) && a.from in m && a.to in m && b.from in m && b.to in m
    ensures Same(Relabel(m, a), Relabel(m, b)) <==> Same(a, b)
  {
    SameIff(Relabel(m, a), Relabel(m, b));
    SameIff(a, b);
  }

  /** Relabelling through an injective map keeps the number of (canonical) edges. */
  lemma {:induction false} RelabelKeepsSize(m: map<Vertex, Vertex>, E: set<Edge>)
    requires Injective(m) && Covers(m, E)
    requires forall e :: e in E ==> Canon(e) == e
    ensures |RelabelAll(m, E)| == |E|
  {
    if E != {} {
      var x :| x in E;
      var E' := E - {x};
      RelabelKeepsSize(m, E');
      assert RelabelAll(m, E) == RelabelAll(m, E') + {Canon(Relabel(m, x))};
      forall e | e in E'
        ensures Canon(Relabel(m, e)) != Canon(Relabel(m, x))
      {
        RelabelInjective(m, e, x);
      }
    }
  }

  /** The identity on `V`. */
  function Identity(V: set<Vertex>): (m: map<Vertex, Vertex>)
    ensures m.Keys == V && forall v :: v in V ==> m[v] == v
  {
    map v | v in V :: v
  }

  /** Relabelling canonical edges through the identity leaves them as they are. */
  lemma IdentityRelabel(V: set<Vertex>, E: set<Edge>)
    requires Covers(Identity(V), E) && forall e :: e in E ==> Canon(e) == e
    ensures RelabelAll(Identity(V), E) == E
  {
    forall e | e in E
      ensures Canon(Relabel(Identity(V), e)) == e
    {
      assert Relabel(Identity(V), e) == e;
    }
  }

  /** The identity on `V` is injective and has `V` as its values. */
  lemma IdentityValues(V: set<Vertex>)
    ensures Injective(Identity(V)) && Identity(V).Values == V
  {
    var m := Identity(V);
    forall v | v in V
      ensures v in m.Values
    {
      assert m[v] == v;
    }
  }

  /** The listed edges as they are stored after relabelling. */
  ghost function RelabelSeq(m: map<Vertex, Vertex>, es: seq<Edge>): set<Edge>
    requires forall e :: e in es ==> e.from in m && e.to in m
  {
    set e | e in es :: Canon(Relabel(m, e))
  }

  /** A list without repeats has as many elements as its set. */
  lemma {:induction false} DistinctCount(xs: seq<Vertex>)
    requires Distinct(xs)
    ensures |set k | 0 <= k < |xs| :: xs[k]| == |xs|
  {
    if xs != [] {
      var ys := xs[..|xs| - 1];
      DistinctCount(ys);
      assert (set k | 0 <= k < |xs| :: xs[k]) == (set k | 0 <= k < |ys| :: ys[k]) + {xs[|xs| - 1]};
    }
  }
}
