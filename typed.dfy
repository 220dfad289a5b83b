/**
 * The type-restricted shuffle: the edges of each type are shuffled among
 * themselves, so every per-type degree, every per-type edge count and the
 * plain degrees are kept.
 */
module TypeSpec {
  import opened Edges
  import opened GraphModel
  import opened Arith
  import opened SwapSpec

  /** What the type-restricted shuffle keeps of the edge set `E0` it started from. */
  ghost predicate TypeShuffleInv(E0: set<Edge>, E: set<Edge>)
  {
    && |E| == |E0|
    && Kinds(E) <= Kinds(E0)
    && (forall e :: e in E && IsSelfLoop(e) ==> e in E0)
    && (forall v :: Degree(E, v) == Degree(E0, v))
    && (AllDirected(E0) ==> forall v :: OutDegree(E, v) == OutDegree(E0, v) && InDegree(E, v) == InDegree(E0, v))
    && TypesKept(E0, E)
  }

  /** Per type: the edge count, the degree of every vertex, and for an all-directed type its in- and out-degrees. */
  ghost predicate TypesKept(E0: set<Edge>, E: set<Edge>)
  {
    forall t ::
      && |OfType(E, t)| == |OfType(E0, t)|
      && (forall v :: Degree(OfType(E, t), v) == Degree(OfType(E0, t), v))
      && (AllDirected(OfType(E0, t)) ==>
            forall v :: OutDegree(OfType(E, t), v) == OutDegree(OfType(E0, t), v)
                     && InDegree(OfType(E, t), v) == InDegree(OfType(E0, t), v))
  }

  /** Nothing changed yet. */
  lemma TypeShuffleStarts(E0: set<Edge>)
    ensures TypeShuffleInv(E0, E0)
  {
  }

  /**
   * One step of the type-restricted shuffle: the edges of type `t` are
   * replaced by `scope'`, a set of the same size and degrees whose kinds
   * already occurred among them.  The invariant survives.
   */
  lemma TypeStep(E0: set<Edge>, E: set<Edge>, E': set<Edge>, t: EdgeType, scope': set<Edge>)
    requires TypeShuffleInv(E0, E)
    requires E' == (E - OfType(E, t)) + scope' && (E - OfType(E, t)) !! scope'
    requires |scope'| == |OfType(E, t)|
    requires forall v :: Degree(scope', v) == Degree(OfType(E, t), v)
    requires AllDirected(OfType(E, t)) ==>
      forall v :: OutDegree(scope', v) == OutDegree(OfType(E, t), v) && InDegree(scope', v) == InDegree(OfType(E, t), v)
    requires Kinds(scope') <= Kinds(OfType(E, t))
    requires forall e :: e in E' && IsSelfLoop(e) ==> e in E
    ensures TypeShuffleInv(E0, E')
  {
    var S := OfType(E, t);
    var R := E - S;
    TypeReplaced(E, E', t, scope');
    KindsShrink(E, S, scope', E');
    assert |E'| == |E| by {
      assert |E| == |R| + |S| by { assert E == R + S; }
    }
    forall v
      ensures Degree(E', v) == Degree(E0, v)
      ensures AllDirected(E0) ==> OutDegree(E', v) == OutDegree(E0, v) && InDegree(E', v) == InDegree(E0, v)
    {
      DegreeUnion(R, scope', v);
      DegreeUnion(R, S, v);
      assert R + S == E;
      if AllDirected(E0) {
        DirectedByKinds(E0, E);
        assert AllDirected(S);
      }
    }
    TypesStep(E0, E, E', t, scope');
  }

  /** The per-type part of `TypeStep`. */
  lemma TypesStep(E0: set<Edge>, E: set<Edge>, E': set<Edge>, t: EdgeType, scope': set<Edge>)
    requires TypesKept(E0, E) && Kinds(E) <= Kinds(E0)
    requires OfType(E', t) == scope'
    requires forall u :: u != t ==> OfType(E', u) == OfType(E, u)
    requires |scope'| == |OfType(E, t)|
    requires forall v :: Degree(scope', v) == Degree(OfType(E, t), v)
    requires AllDirected(OfType(E, t)) ==>
      forall v :: OutDegree(scope', v) == OutDegree(OfType(E, t), v) && InDegree(scope', v) == InDegree(OfType(E, t), v)
    ensures TypesKept(E0, E')
  {
    if AllDirected(OfType(E0, t)) {
      forall e | e in OfType(E, t)
        ensures KindOf(e) in Kinds(OfType(E0, t))
      {
        assert KindOf(e) in Kinds(E0);
        var e0 :| e0 in E0 && KindOf(e0) == KindOf(e);
        assert e0 in OfType(E0, t);
      }
      DirectedByKinds(OfType(E0, t), OfType(E, t));
    }
  }

  /**
   * Replacing the edges of type `t` by edges whose kinds occurred among them
   * makes those the edges of type `t`, and leaves every other type's edges as
   * they were.
   */
  lemma TypeReplaced(E: set<Edge>, E': set<Edge>, t: EdgeType, scope': set<Edge>)
    requires E' == (E - OfType(E, t)) + scope' && Kinds(scope') <= Kinds(OfType(E, t))
    ensures OfType(E', t) == scope'
    ensures forall u :: u != t ==> OfType(E', u) == OfType(E, u)
  {
    OnlyType(OfType(E, t), scope', t);
    forall u | u != t
      ensures OfType(E', u) == OfType(E, u)
    {
    }
  }

  /** Edges whose kinds all occur among edges of type `t` are of type `t`. */
  lemma OnlyType(S: set<Edge>, T: set<Edge>, t: EdgeType)
    requires forall e :: e in S ==> e.etype == t
    requires Kinds(T) <= Kinds(S)
    ensures forall e :: e in T ==> e.etype == t
  {
    forall e | e in T
      ensures e.etype == t
    {
      assert KindOf(e) in Kinds(S);
      var e0 :| e0 in S && KindOf(e0) == KindOf(e);
    }
  }

  /** Every kind of `E` occurs in `F`; where `F` is all directed, so is `E`. */
  lemma DirectedByKinds(F: set<Edge>, E: set<Edge>)
    requires AllDirected(F) && forall e :: e in E ==> KindOf(e) in Kinds(F)
    ensures AllDirected(E)
  {
    forall e | e in E
      ensures e.directed
    {
      var e0 :| e0 in F && KindOf(e0) == KindOf(e);
    }
  }

  lemma KindsShrink(E: set<Edge>, S: set<Edge>, scope': set<Edge>, E': set<Edge>)
    requires S <= E && E' == (E - S) + scope' && Kinds(scope') <= Kinds(S)
    ensures Kinds(E') <= Kinds(E)
  {
    forall k | k in Kinds(E')
      ensures k in Kinds(E)
    {
      var e :| e in E' && KindOf(e) == k;
      if e !in scope' {
        assert e in E;
      } else {
        assert k in Kinds(S);
        var e0 :| e0 in S && KindOf(e0) == k;
        assert e0 in E;
      }
    }
  }

  /** The sum of a sequence of counts. */
  function Sum(xs: seq<nat>): nat
  {
    if xs == [] then 0 else Sum(xs[..|xs| - 1]) + xs[|xs| - 1]
  }

  lemma SumSnoc(xs: seq<nat>, x: nat)
    ensures Sum(xs + [x]) == Sum(xs) + x
  {
    assert (xs + [x])[..|xs|] == xs;
  }

  /** Appending the count of the next type keeps every count within its bound. */
  lemma BoundsSnoc(E: set<Edge>, types: seq<EdgeType>, counts: seq<nat>, n: nat, c: nat)
    requires |counts| < |types|
    requires forall q :: 0 <= q < |counts| ==> counts[q] <= n * |OfType(E, types[q])|
    requires c <= n * |OfType(E, types[|counts|])|
    ensures forall q :: 0 <= q < |counts + [c]| ==> (counts + [c])[q] <= n * |OfType(E, types[q])|
  {
  }

  /**
   * Appending the shuffle of the next type, from the last stage to `E'`,
   * keeps every stage a run of the shuffle of its type.
   */
  lemma RunsSnoc(stages: seq<set<Edge>>, types: seq<EdgeType>, n: nat, choices: seq<Choices>, counts: seq<nat>,
                 c: Choices, E': set<Edge>, count: nat)
    requires |stages| == |choices| + 1 && |counts| == |choices| < |types|
    requires forall q :: 0 <= q < |choices| ==>
      ShuffleRun(stages[q], OfType(stages[q], types[q]), n, choices[q], stages[q + 1], counts[q])
    requires ShuffleRun(stages[|choices|], OfType(stages[|choices|], types[|choices|]), n, c, E', count)
    ensures forall q :: 0 <= q < |choices + [c]| ==>
      ShuffleRun((stages + [E'])[q], OfType((stages + [E'])[q], types[q]), n, (choices + [c])[q],
                 (stages + [E'])[q + 1], (counts + [count])[q])
  {
  }

  /** The edges of `E` whose type is listed in `types`. */
  ghost function OfTypes(E: set<Edge>, types: seq<EdgeType>): set<Edge>
  {
    set e | e in E && e.etype in types
  }

  /**
   * Counts bounded per listed type by `n` times that type's edge count sum to
   * at most `n` times the number of edges of the listed types (each type once).
   */
  lemma {:induction false} SumBound(E: set<Edge>, types: seq<EdgeType>, counts: seq<nat>, n: nat)
    requires |counts| == |types| && Distinct(types)
    requires forall k :: 0 <= k < |counts| ==> counts[k] <= n * |OfType(E, types[k])|
    ensures Sum(counts) <= n * |OfTypes(E, types)|
  {
    if counts != [] {
      var m := |counts| - 1;
      SumBound(E, types[..m], counts[..m], n);
      var a, b := |OfTypes(E, types[..m])|, |OfType(E, types[m])|;
      OfTypesSnoc(E, types);
      assert Sum(counts) <= n * a + n * b;
      MulAdd(n, a, b);
    }
  }

  /**
   * Counts of at most `n` per edge of each of some distinct types add up to at
   * most `n` per edge of the whole set.
   */
  lemma SumWithinSize(E: set<Edge>, types: seq<EdgeType>, counts: seq<nat>, n: nat)
    requires |counts| == |types| && Distinct(types)
    requires forall k :: 0 <= k < |counts| ==> counts[k] <= n * |OfType(E, types[k])|
    ensures Sum(counts) <= n * |E|
  {
    SumBound(E, types, counts, n);
    SubsetSize(OfTypes(E, types), E);
    MulMono(n, |OfTypes(E, types)|, |E|);
  }

  /** Taking one more type in adds exactly the edges of that type. */
  lemma OfTypesSnoc(E: set<Edge>, types: seq<EdgeType>)
    requires types != [] && Distinct(types)
    ensures |OfTypes(E, types)| == |OfTypes(E, types[..|types| - 1])| + |OfType(E, types[|types| - 1])|
  {
    var m := |types| - 1;
    var A, B := OfTypes(E, types[..m]), OfType(E, types[m]);
    assert types[m] !in types[..m];
    assert OfTypes(E, types) == A + B;
    DisjointSize(A, B);
  }

  lemma DisjointSize<T>(A: set<T>, B: set<T>)
    requires A !! B
    ensures |A + B| == |A| + |B|
  {
  }
}
