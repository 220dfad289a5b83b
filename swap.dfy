/**
 * One attempt of the degree-preserving double-edge swap, as values: the two
 * candidate edges, the test that accepts or rejects them, and the effect of a
 * committed swap on the graph's edge set and on the array of scoped edges.
 * The lemmas here carry the proof of the shuffle's invariants.
 */
module SwapSpec {
  import opened Edges
  import opened Arith

  /**
   * The candidates of an attempt on `e1` and `e2`: each undirected edge is
   * flipped when its coin says so, then the two exchange their `to` endpoints,
   * each keeping its own `from`, directedness and type.
   */
  function Candidates(e1: Edge, e2: Edge, flip1: bool, flip2: bool): (Edge, Edge)
  {
    var x1 := Orient(e1, flip1);
    var x2 := Orient(e2, flip2);
    (Clone(x1, x1.from, x2.to), Clone(x2, x2.from, x1.to))
  }

  /** The acceptance test of the source: neither candidate is in the graph, neither is a self-loop. */
  predicate AcceptsAsWritten(E: set<Edge>, s1: Edge, s2: Edge)
  {
    Canon(s1) !in E && Canon(s2) !in E && !IsSelfLoop(s1) && !IsSelfLoop(s2)
  }

  /** The acceptance test the model uses: in addition, the two candidates are not one and the same edge. */
  predicate Accepts(E: set<Edge>, s1: Edge, s2: Edge)
  {
    AcceptsAsWritten(E, s1, s2) && !Same(s1, s2)
  }

  /** A committed swap: remove the two old edges, add the two candidates. */
  function Commit(E: set<Edge>, e1: Edge, e2: Edge, s1: Edge, s2: Edge): set<Edge>
  {
    E - {Canon(e1), Canon(e2)} + {Canon(s1), Canon(s2)}
  }

  /**
   * Each candidate keeps the kind of the edge it came from, and the two
   * candidates together occupy the same endpoint slots at every vertex as the
   * two originals; when both originals are directed, the same tails and heads.
   */
  lemma CandidatesKeepEndpoints(e1: Edge, e2: Edge, flip1: bool, flip2: bool, v: Vertex)
    ensures KindOf(Candidates(e1, e2, flip1, flip2).0) == KindOf(e1)
    ensures KindOf(Candidates(e1, e2, flip1, flip2).1) == KindOf(e2)
    ensures Incidence(Candidates(e1, e2, flip1, flip2).0, v) + Incidence(Candidates(e1, e2, flip1, flip2).1, v)
         == Incidence(e1, v) + Incidence(e2, v)
    ensures e1.directed && e2.directed ==>
      Candidates(e1, e2, flip1, flip2).0.from == e1.from &&
      Candidates(e1, e2, flip1, flip2).1.from == e2.from &&
      Candidates(e1, e2, flip1, flip2).0.to == e2.to &&
      Candidates(e1, e2, flip1, flip2).1.to == e1.to
  {
  }

  /**
   * The only attempts that the source's test accepts and the corrected test
   * rejects pair two undirected self-loops: their candidates (x, y) and (y, x)
   * are one undirected edge.
   */
  lemma AsWrittenGapIsTwoSelfLoops(E: set<Edge>, e1: Edge, e2: Edge, flip1: bool, flip2: bool)
    requires !Same(e1, e2)
    requires AcceptsAsWritten(E, Candidates(e1, e2, flip1, flip2).0, Candidates(e1, e2, flip1, flip2).1)
    requires !Accepts(E, Candidates(e1, e2, flip1, flip2).0, Candidates(e1, e2, flip1, flip2).1)
    ensures !e1.directed && !e2.directed && IsSelfLoop(e1) && IsSelfLoop(e2)
  {
    var (s1, s2) := Candidates(e1, e2, flip1, flip2);
    var x1, x2 := Orient(e1, flip1), Orient(e2, flip2);
    assert Same(s1, s2);
    SameIff(s1, s2);
    if s1.from == s2.from && s1.to == s2.to {
      assert x1 == x2;
      FlipIsSame(e1, flip1);
      FlipIsSame(e2, flip2);
      assert false;
    }
  }

  /**
   * The source's test lets a swap through that loses an edge: in an undirected
   * graph whose only edges are the self-loops (0,0) and (1,1), the candidates
   * (0,1) and (1,0) pass every check, and committing them leaves one edge
   * where there were two, and vertex 0 with degree 1 instead of 2.
   */
  lemma AsWrittenLosesAnEdge()
    ensures
      var e1, e2 := Edge(0, 0, false, Untyped), Edge(1, 1, false, Untyped);
      var E := {e1, e2};
      var (s1, s2) := Candidates(e1, e2, false, false);
      && !Same(e1, e2)
      && AcceptsAsWritten(E, s1, s2)
      && !Accepts(E, s1, s2)
      && |Commit(E, e1, e2, s1, s2)| == |E| - 1
      && Degree(Commit(E, e1, e2, s1, s2), 0) == Degree(E, 0) - 1
  {
    var e1, e2 := Edge(0, 0, false, Untyped), Edge(1, 1, false, Untyped);
    var E := {e1, e2};
    var (s1, s2) := Candidates(e1, e2, false, false);
    var after := Commit(E, e1, e2, s1, s2);
    assert after == {Edge(0, 1, false, Untyped)};
    assert Ends(after, Tail, 0) == {Edge(0, 1, false, Untyped)};
    assert Ends(after, Head, 0) == {};
    assert Ends(E, Tail, 0) == {e1};
    assert Ends(E, Head, 0) == {e1};
  }

  /** With the corrected test, two distinct candidates are never equal, so a commit keeps the edge count. */
  lemma CommitKeepsSize(E: set<Edge>, e1: Edge, e2: Edge, flip1: bool, flip2: bool)
    requires Canon(e1) in E && Canon(e2) in E && !Same(e1, e2)
    requires Accepts(E, Candidates(e1, e2, flip1, flip2).0, Candidates(e1, e2, flip1, flip2).1)
    ensures |Commit(E, e1, e2, Candidates(e1, e2, flip1, flip2).0, Candidates(e1, e2, flip1, flip2).1)| == |E|
  {
    var (s1, s2) := Candidates(e1, e2, flip1, flip2);
    var R := E - {Canon(e1), Canon(e2)};
    assert |R| == |E| - 2;
    assert Canon(s1) != Canon(s2);
    assert Canon(s1) !in R && Canon(s2) !in R;
    assert |R + {Canon(s1)}| == |R| + 1;
    assert |R + {Canon(s1)} + {Canon(s2)}| == |R| + 2;
    assert R + {Canon(s1)} + {Canon(s2)} == Commit(E, e1, e2, s1, s2);
  }

  /**
   * A committed swap on two distinct edges of a scope `S` keeps every vertex's
   * degree within `S`, and its in- and out-degree when both edges are directed.
   */
  lemma CommitKeepsDegrees(S: set<Edge>, e1: Edge, e2: Edge, flip1: bool, flip2: bool, v: Vertex)
    requires Canon(e1) in S && Canon(e2) in S && !Same(e1, e2)
    requires Accepts(S, Candidates(e1, e2, flip1, flip2).0, Candidates(e1, e2, flip1, flip2).1)
    ensures Degree(Commit(S, e1, e2, Candidates(e1, e2, flip1, flip2).0, Candidates(e1, e2, flip1, flip2).1), v)
         == Degree(S, v)
    ensures e1.directed && e2.directed ==>
      var S' := Commit(S, e1, e2, Candidates(e1, e2, flip1, flip2).0, Candidates(e1, e2, flip1, flip2).1);
      OutDegree(S', v) == OutDegree(S, v) && InDegree(S', v) == InDegree(S, v)
  {
    var (s1, s2) := Candidates(e1, e2, flip1, flip2);
    var c1, c2, n1, n2 := Canon(e1), Canon(e2), Canon(s1), Canon(s2);
    EndsReplace(S, c1, c2, n1, n2, Tail, v);
    EndsReplace(S, c1, c2, n1, n2, Head, v);
    EndsReplace(S, c1, c2, n1, n2, DirectedTail, v);
    EndsReplace(S, c1, c2, n1, n2, DirectedHead, v);
    CandidatesKeepEndpoints(e1, e2, flip1, flip2, v);
    CanonIncidence(e1, v);
    CanonIncidence(e2, v);
    CanonIncidence(s1, v);
    CanonIncidence(s2, v);
  }

  // ---------------------------------------------------------------------------
  // The array of scoped edges and its agreement with the graph.

  /** The edges an array of scoped edges stands for. */
  function Elements(s: seq<Edge>): set<Edge>
  {
    set k | 0 <= k < |s| :: Canon(s[k])
  }

  /** No two slots of the array hold equal edges: the array lists as many edges as it has slots. */
  ghost predicate DistinctEdges(s: seq<Edge>)
  {
    |Elements(s)| == |s|
  }

  /** The graph's edges are the edges outside the scope (`rest`) plus those the array lists, disjointly. */
  ghost predicate Synced(E: set<Edge>, s: seq<Edge>, rest: set<Edge>)
  {
    DistinctEdges(s) && E == rest + Elements(s) && rest !! Elements(s)
  }

  lemma ElementsSnoc(t: seq<Edge>, x: Edge)
    ensures Elements(t + [x]) == Elements(t) + {Canon(x)}
  {
    var s := t + [x];
    forall y | y in Elements(s) ensures y in Elements(t) + {Canon(x)} {
      var k :| 0 <= k < |s| && y == Canon(s[k]);
      if k < |t| { assert y == Canon(t[k]); }
    }
    forall y | y in Elements(t) ensures y in Elements(s) {
      var k :| 0 <= k < |t| && y == Canon(t[k]);
      assert y == Canon(s[k]);
    }
    assert Canon(x) == Canon(s[|t|]);
  }

  /** An array whose slots hold pairwise unequal edges lists as many edges as it has slots. */
  lemma {:induction false} PairwiseDistinct(s: seq<Edge>)
    requires forall p, q :: 0 <= p < q < |s| ==> Canon(s[p]) != Canon(s[q])
    ensures DistinctEdges(s)
  {
    if s != [] {
      var t, x := s[..|s| - 1], s[|s| - 1];
      assert s == t + [x];
      forall p, q | 0 <= p < q < |t| ensures Canon(t[p]) != Canon(t[q]) {
        assert t[p] == s[p] && t[q] == s[q];
      }
      PairwiseDistinct(t);
      ElementsSnoc(t, x);
      assert Canon(x) !in Elements(t) by {
        forall k | 0 <= k < |t| ensures Canon(t[k]) != Canon(x) {
          assert t[k] == s[k];
        }
      }
    }
  }

  /** An array never lists more edges than it has slots. */
  lemma {:induction false} ElementsAtMost(s: seq<Edge>)
    ensures |Elements(s)| <= |s|
  {
    if s != [] {
      var t, x := s[..|s| - 1], s[|s| - 1];
      assert s == t + [x];
      ElementsAtMost(t);
      ElementsSnoc(t, x);
    }
  }

  /** Two slots holding equal edges make the array list fewer edges than it has slots. */
  lemma RepeatShrinks(s: seq<Edge>, p: nat, q: nat)
    requires p < |s| && q < |s| && p != q
    ensures Canon(s[p]) == Canon(s[q]) ==> |Elements(s)| < |s|
  {
    if Canon(s[p]) == Canon(s[q]) {
      var t := s[..q] + s[q + 1..];
      forall y | y in Elements(s) ensures y in Elements(t) {
        var k :| 0 <= k < |s| && y == Canon(s[k]);
        if k == q {
          k := p;
        }
        if k < q {
          assert t[k] == s[k];
        } else {
          assert t[k - 1] == s[k];
        }
      }
      SubsetSize(Elements(s), Elements(t));
      ElementsAtMost(t);
    }
  }

  /** In an array of distinct edges, any two slots hold unequal edges. */
  lemma SlotsDiffer(s: seq<Edge>)
    requires DistinctEdges(s)
    ensures forall p, q :: 0 <= p < q < |s| ==> Canon(s[p]) != Canon(s[q])
  {
    forall p, q | 0 <= p < q < |s| ensures Canon(s[p]) != Canon(s[q]) {
      RepeatShrinks(s, p, q);
    }
  }

  /** Overwriting one slot with an edge that no other slot holds swaps one edge of the array for another. */
  lemma ElementsUpdate(s: seq<Edge>, i: nat, x: Edge)
    requires DistinctEdges(s) && i < |s|
    requires forall k :: 0 <= k < |s| && k != i ==> Canon(s[k]) != Canon(x)
    ensures DistinctEdges(s[i := x])
    ensures Elements(s[i := x]) == Elements(s) - {Canon(s[i])} + {Canon(x)}
  {
    var s' := s[i := x];
    SlotsDiffer(s);
    forall y | y in Elements(s') ensures y in Elements(s) - {Canon(s[i])} + {Canon(x)} {
      var k :| 0 <= k < |s'| && y == Canon(s'[k]);
      if k < i {
        assert y == Canon(s[k]);
      } else if k > i {
        assert y == Canon(s[k]);
      }
    }
    forall y | y in Elements(s) - {Canon(s[i])} ensures y in Elements(s') {
      var k :| 0 <= k < |s| && y == Canon(s[k]);
      assert k != i && y == Canon(s'[k]);
    }
    assert Canon(x) == Canon(s'[i]);
    var X := Elements(s);
    assert Canon(s[i]) in X && |X - {Canon(s[i])}| == |X| - 1;
    assert Canon(x) !in X - {Canon(s[i])} by {
      forall k | 0 <= k < |s| && k != i ensures Canon(s[k]) != Canon(x) {}
    }
    assert Elements(s') == X - {Canon(s[i])} + {Canon(x)};
    assert |X - {Canon(s[i])} + {Canon(x)}| == |X|;
  }

  /**
   * Overwriting slot `i` with an edge the graph does not hold replaces that
   * slot's edge by the new one, in the graph and in the array alike.
   */
  lemma ReplaceKeepsSynced(E: set<Edge>, s: seq<Edge>, rest: set<Edge>, i: nat, x: Edge)
    requires Synced(E, s, rest) && i < |s| && Canon(x) !in E
    ensures Synced(E - {Canon(s[i])} + {Canon(x)}, s[i := x], rest)
    ensures Elements(s[i := x]) == Elements(s) - {Canon(s[i])} + {Canon(x)}
  {
    forall k | 0 <= k < |s| && k != i ensures Canon(s[k]) != Canon(x) {
      assert Canon(s[k]) in Elements(s);
    }
    ElementsUpdate(s, i, x);
  }

  /**
   * Committing an accepted swap of slots `i` and `j`, and overwriting the two
   * slots with the candidates, keeps the array in agreement with the graph:
   * the array's edges undergo exactly the commit, and the rest is untouched.
   */
  lemma CommitKeepsSynced(E: set<Edge>, s: seq<Edge>, rest: set<Edge>, i: nat, j: nat, flip1: bool, flip2: bool)
    requires Synced(E, s, rest) && i < |s| && j < |s| && i != j
    requires Accepts(E, Candidates(s[i], s[j], flip1, flip2).0, Candidates(s[i], s[j], flip1, flip2).1)
    ensures
      var (s1, s2) := Candidates(s[i], s[j], flip1, flip2);
      && Synced(Commit(E, s[i], s[j], s1, s2), s[i := s1][j := s2], rest)
      && Elements(s[i := s1][j := s2]) == Commit(Elements(s), s[i], s[j], s1, s2)
  {
    var e1, e2 := s[i], s[j];
    var (s1, s2) := Candidates(e1, e2, flip1, flip2);
    var c1, c2, n1, n2 := Canon(e1), Canon(e2), Canon(s1), Canon(s2);
    var X := Elements(s);
    RepeatShrinks(s, i, j);
    assert c1 != c2 && c1 in X && c2 in X;
    ReplaceKeepsSynced(E, s, rest, i, s1);
    var t := s[i := s1];
    assert t[j] == e2;
    ReplaceKeepsSynced(E - {c1} + {n1}, t, rest, j, s2);
    assert c2 != n1 && c2 in E;
    ReplaceTwice(E, c1, c2, n1, n2);
    ReplaceTwice(X, c1, c2, n1, n2);
  }

  // ---------------------------------------------------------------------------
  // The invariant of the shuffle loops.

  /**
   * The state of a shuffle of `scope` whose array started as `initial` and now
   * is `s`, in a graph with edges `E`: the array agrees with the graph, the
   * scope's edges keep every vertex's degree (and in/out-degree when they are
   * all directed), each slot keeps its kind, and a slot holds a self-loop only
   * if it has never been overwritten.
   */
  ghost predicate ShuffleInv(E: set<Edge>, s: seq<Edge>, rest: set<Edge>, scope: set<Edge>, initial: seq<Edge>)
  {
    && |s| == |initial|
    && Elements(initial) == scope
    && Synced(E, s, rest)
    && DegreesKept(Elements(s), scope)
    && SlotsKept(s, initial)
  }

  ghost predicate DegreesKept(X: set<Edge>, scope: set<Edge>)
  {
    && (forall v :: Degree(X, v) == Degree(scope, v))
    && (AllDirected(scope) ==> forall v ::
          OutDegree(X, v) == OutDegree(scope, v) && InDegree(X, v) == InDegree(scope, v))
  }

  ghost predicate SlotsKept(s: seq<Edge>, initial: seq<Edge>)
    requires |s| == |initial|
  {
    && (forall k :: 0 <= k < |s| ==> KindOf(s[k]) == KindOf(initial[k]))
    && (forall k :: 0 <= k < |s| && IsSelfLoop(s[k]) ==> s[k] == initial[k])
  }

  /**
   * An accepted attempt on slots `i` and `j` keeps the shuffle invariant and
   * the edge count, and adds at most two edges that were not in the scope.
   */
  lemma AttemptKeepsInv(E: set<Edge>, s: seq<Edge>, rest: set<Edge>, scope: set<Edge>, initial: seq<Edge>,
                        i: nat, j: nat, flip1: bool, flip2: bool)
    requires ShuffleInv(E, s, rest, scope, initial) && i < |s| && j < |s| && i != j
    requires Accepts(E, Candidates(s[i], s[j], flip1, flip2).0, Candidates(s[i], s[j], flip1, flip2).1)
    ensures
      var (s1, s2) := Candidates(s[i], s[j], flip1, flip2);
      var s' := s[i := s1][j := s2];
      && ShuffleInv(Commit(E, s[i], s[j], s1, s2), s', rest, scope, initial)
      && |Commit(E, s[i], s[j], s1, s2)| == |E|
      && |Elements(s') - scope| <= |Elements(s) - scope| + 2
  {
    var e1, e2 := s[i], s[j];
    var (s1, s2) := Candidates(e1, e2, flip1, flip2);
    var s' := s[i := s1][j := s2];
    var X := Elements(s);
    CommitKeepsSynced(E, s, rest, i, j, flip1, flip2);
    assert Elements(s') == Commit(X, e1, e2, s1, s2);
    RepeatShrinks(s, i, j);
    assert Canon(e1) in X && Canon(e2) in X && !Same(e1, e2) && X <= E;
    CommitKeepsSize(E, e1, e2, flip1, flip2);
    assert AllDirected(scope) ==> e1.directed && e2.directed by {
      if AllDirected(scope) {
        assert Canon(initial[i]) in scope && Canon(initial[j]) in scope;
      }
    }
    CommitKeepsDegreesKept(X, scope, e1, e2, flip1, flip2);
    CommitKeepsSlotsKept(s, initial, i, j, flip1, flip2);
    CommitBoundsChange(X, scope, e1, e2, s1, s2);
  }

  /** A swap accepted on edges of `X` keeps the degrees `X` shares with the scope. */
  lemma CommitKeepsDegreesKept(X: set<Edge>, scope: set<Edge>, e1: Edge, e2: Edge, flip1: bool, flip2: bool)
    requires DegreesKept(X, scope)
    requires Canon(e1) in X && Canon(e2) in X && !Same(e1, e2)
    requires Accepts(X, Candidates(e1, e2, flip1, flip2).0, Candidates(e1, e2, flip1, flip2).1)
    requires AllDirected(scope) ==> e1.directed && e2.directed
    ensures DegreesKept(Commit(X, e1, e2, Candidates(e1, e2, flip1, flip2).0, Candidates(e1, e2, flip1, flip2).1), scope)
  {
    forall v {
      CommitKeepsDegrees(X, e1, e2, flip1, flip2, v);
    }
  }

  /** Overwriting two slots with the candidates built from them keeps every slot's kind and self-loop history. */
  lemma CommitKeepsSlotsKept(s: seq<Edge>, initial: seq<Edge>, i: nat, j: nat, flip1: bool, flip2: bool)
    requires |s| == |initial| && SlotsKept(s, initial) && i < |s| && j < |s| && i != j
    requires !IsSelfLoop(Candidates(s[i], s[j], flip1, flip2).0) && !IsSelfLoop(Candidates(s[i], s[j], flip1, flip2).1)
    ensures SlotsKept(s[i := Candidates(s[i], s[j], flip1, flip2).0][j := Candidates(s[i], s[j], flip1, flip2).1], initial)
  {
    var (s1, s2) := Candidates(s[i], s[j], flip1, flip2);
    var s' := s[i := s1][j := s2];
    CandidatesKeepEndpoints(s[i], s[j], flip1, flip2, 0);
    forall k | 0 <= k < |s'|
      ensures KindOf(s'[k]) == KindOf(initial[k])
      ensures IsSelfLoop(s'[k]) ==> s'[k] == initial[k]
    {
      if k != i && k != j {
        assert s'[k] == s[k];
      }
    }
  }

  /** A commit adds at most two edges that were not in the scope. */
  lemma CommitBoundsChange(X: set<Edge>, scope: set<Edge>, e1: Edge, e2: Edge, s1: Edge, s2: Edge)
    ensures |Commit(X, e1, e2, s1, s2) - scope| <= |X - scope| + 2
  {
    var Y := Commit(X, e1, e2, s1, s2) - scope;
    var Z := (X - scope) + {Canon(s1), Canon(s2)};
    assert Y <= Z;
    SubsetSize(Y, Z);
    assert |Z| <= |X - scope| + 2;
  }

  /**
   * The shuffle starts from its invariant: an array listing the scope's edges,
   * each once, agrees with a graph whose edges are representatives.
   */
  lemma ShuffleStarts(E: set<Edge>, s: seq<Edge>, scope: set<Edge>)
    requires scope <= E && forall e :: e in E ==> Canon(e) == e
    requires forall p, q :: 0 <= p < q < |s| ==> s[p] != s[q]
    requires forall x :: x in s <==> x in scope
    ensures ShuffleInv(E, s, E - scope, scope, s)
  {
    assert Elements(s) == scope by {
      forall x | x in scope ensures x in Elements(s) {
        var k :| 0 <= k < |s| && s[k] == x;
        assert Canon(s[k]) == x;
      }
      forall k | 0 <= k < |s| ensures Canon(s[k]) in scope {
        assert s[k] in scope;
      }
    }
    forall p, q | 0 <= p < q < |s| ensures Canon(s[p]) != Canon(s[q]) {
      assert s[p] in scope && s[q] in scope;
    }
    PairwiseDistinct(s);
  }

  /**
   * What the invariant gives when the shuffle ends: the graph is the untouched
   * rest plus as many scoped edges as before, every kind among them was there
   * before, and every self-loop was already in the graph.
   */
  lemma ShuffleEnds(E: set<Edge>, s: seq<Edge>, rest: set<Edge>, scope: set<Edge>, initial: seq<Edge>)
    requires ShuffleInv(E, s, rest, scope, initial) && DistinctEdges(initial)
    ensures E == rest + Elements(s) && rest !! Elements(s)
    ensures |Elements(s)| == |scope|
    ensures Kinds(Elements(s)) <= Kinds(scope)
    ensures forall e :: e in E && IsSelfLoop(e) ==> e in rest + scope
  {
    forall e | e in Elements(s) ensures KindOf(e) in Kinds(scope) && (IsSelfLoop(e) ==> e in scope) {
      var k :| 0 <= k < |s| && e == Canon(s[k]);
      assert Canon(initial[k]) in scope;
      assert KindOf(e) == KindOf(Canon(initial[k]));
    }
  }

  /** Two single replacements in a row make one double replacement. */
  lemma ReplaceTwice<T>(A: set<T>, c1: T, c2: T, n1: T, n2: T)
    requires c2 != n1
    ensures A - {c1} + {n1} - {c2} + {n2} == A - {c1, c2} + {n1, n2}
  {
  }

  // ---------------------------------------------------------------------------
  // The shuffle as a run of attempts.

  /** One attempt: the edge in slot `i` against the partner in slot `j`, with the two flip coins. */
  datatype Attempt = Attempt(i: nat, j: nat, flip1: bool, flip2: bool)

  /** The state of a shuffle: the graph's edges, the array's slots and the swaps committed so far. */
  datatype Outcome = Outcome(edges: set<Edge>, slots: seq<Edge>, commits: nat)

  /** The random draws of a shuffle: the order the scope was listed in, and each slot's attempts. */
  datatype Choices = Choices(order: seq<Edge>, rounds: seq<seq<Attempt>>)

  /** Every attempt names two slots of an array of `n` slots. */
  ghost predicate Fits(trace: seq<Attempt>, n: nat)
  {
    forall k :: 0 <= k < |trace| ==> trace[k].i < n && trace[k].j < n
  }

  /**
   * One attempt from state `o`: when its candidates pass the acceptance test,
   * the two old edges give way to them in the graph and in their slots and
   * one more swap is counted; otherwise nothing changes.  An attempt naming
   * a slot past the end changes nothing either; a `Round` has none.
   */
  ghost function Step(o: Outcome, a: Attempt): (r: Outcome)
    ensures |r.slots| == |o.slots|
  {
    if a.i < |o.slots| && a.j < |o.slots| then
      var (s1, s2) := Candidates(o.slots[a.i], o.slots[a.j], a.flip1, a.flip2);
      if Accepts(o.edges, s1, s2) then
        Outcome(Commit(o.edges, o.slots[a.i], o.slots[a.j], s1, s2), o.slots[a.i := s1][a.j := s2], o.commits + 1)
      else
        o
    else
      o
  }

  /** The attempts of `trace`, one after the other, from state `o`. */
  ghost function Run(o: Outcome, trace: seq<Attempt>): (r: Outcome)
    ensures |r.slots| == |o.slots|
    decreases |trace|
  {
    if trace == [] then o else Step(Run(o, trace[..|trace| - 1]), trace[|trace| - 1])
  }

  /** The rounds of attempts, one round after the other, from state `o`. */
  ghost function RunAll(o: Outcome, rounds: seq<seq<Attempt>>): (r: Outcome)
    ensures |r.slots| == |o.slots|
    decreases |rounds|
  {
    if rounds == [] then o else Run(RunAll(o, rounds[..|rounds| - 1]), rounds[|rounds| - 1])
  }

  /** The `n` attempts of slot `i` in an array of `len` slots, each against another slot. */
  ghost predicate Round(trace: seq<Attempt>, i: nat, n: nat, len: nat)
  {
    && |trace| == n
    && Fits(trace, len)
    && forall k :: 0 <= k < |trace| ==> trace[k].i == i && trace[k].j != i
  }

  /** The first `|rounds|` slots in turn get their rounds of `n` attempts. */
  ghost predicate Rounds(rounds: seq<seq<Attempt>>, n: nat, len: nat)
  {
    forall q :: 0 <= q < |rounds| ==> Round(rounds[q], q, n, len)
  }

  /** Every slot of an array of `len` slots in turn gets its round of `n` attempts. */
  ghost predicate Schedule(rounds: seq<seq<Attempt>>, n: nat, len: nat)
  {
    |rounds| == len && Rounds(rounds, n, len)
  }

  /**
   * The shuffle of `scope` within the edges `E`, with `n` attempts per edge,
   * ends in `E'` having committed `count` swaps.  With fewer than two scoped
   * edges nothing happens.  Otherwise the scope is listed in `c.order`, every
   * slot in turn makes its attempts of `c.rounds`, and running them from `E`
   * gives `E'` and `count`.
   */
  ghost predicate ShuffleRun(E: set<Edge>, scope: set<Edge>, n: nat, c: Choices, E': set<Edge>, count: nat)
  {
    if |scope| < 2 then
      E' == E && count == 0
    else
      && |c.order| == |scope| && Elements(c.order) == scope
      && Schedule(c.rounds, n, |scope|)
      && RunAll(Outcome(E, c.order, 0), c.rounds).edges == E'
      && RunAll(Outcome(E, c.order, 0), c.rounds).commits == count
  }

  /** An attempt whose candidates are accepted commits them and counts one more commit. */
  lemma StepCommits(o: Outcome, a: Attempt, s1: Edge, s2: Edge, E': set<Edge>, s': seq<Edge>, n: nat)
    requires a.i < |o.slots| && a.j < |o.slots|
    requires (s1, s2) == Candidates(o.slots[a.i], o.slots[a.j], a.flip1, a.flip2)
    requires Accepts(o.edges, s1, s2)
    requires E' == Commit(o.edges, o.slots[a.i], o.slots[a.j], s1, s2)
    requires s' == o.slots[a.i := s1][a.j := s2] && n == o.commits + 1
    ensures Step(o, a) == Outcome(E', s', n)
  {
  }

  /** An attempt whose candidates are rejected changes nothing. */
  lemma StepRejects(o: Outcome, a: Attempt, s1: Edge, s2: Edge)
    requires a.i < |o.slots| && a.j < |o.slots|
    requires (s1, s2) == Candidates(o.slots[a.i], o.slots[a.j], a.flip1, a.flip2)
    requires !Accepts(o.edges, s1, s2)
    ensures Step(o, a) == o
  {
  }

  /** One more attempt at the end of a trace is one more step. */
  lemma RunSnoc(o: Outcome, trace: seq<Attempt>, a: Attempt)
    ensures Run(o, trace + [a]) == Step(Run(o, trace), a)
  {
    assert (trace + [a])[..|trace|] == trace;
  }

  /** One more attempt of slot `i` against another slot extends its round. */
  lemma RoundSnoc(trace: seq<Attempt>, i: nat, n: nat, len: nat, a: Attempt)
    requires Round(trace, i, n, len) && a.i == i < len && a.j < len && a.j != i
    ensures Round(trace + [a], i, n + 1, len)
  {
  }

  /**
   * The round of the next slot extends the rounds so far, and running it
   * after them is running all of them.
   */
  lemma RoundsSnoc(o: Outcome, rounds: seq<seq<Attempt>>, n: nat, t: seq<Attempt>)
    requires Rounds(rounds, n, |o.slots|) && Round(t, |rounds|, n, |o.slots|)
    ensures Rounds(rounds + [t], n, |o.slots|)
    ensures RunAll(o, rounds + [t]) == Run(RunAll(o, rounds), t)
  {
    assert (rounds + [t])[..|rounds|] == rounds;
  }

  /** A run commits at most one swap per attempt. */
  lemma {:induction false} RunCommits(o: Outcome, trace: seq<Attempt>)
    ensures o.commits <= Run(o, trace).commits <= o.commits + |trace|
  {
    if trace != [] {
      RunCommits(o, trace[..|trace| - 1]);
    }
  }

  /** Rounds of `n` attempts each commit at most `n` swaps per round. */
  lemma {:induction false} RunAllCommits(o: Outcome, rounds: seq<seq<Attempt>>, n: nat)
    requires Rounds(rounds, n, |o.slots|)
    ensures o.commits <= RunAll(o, rounds).commits <= o.commits + n * |rounds|
  {
    if rounds != [] {
      var m := |rounds| - 1;
      assert Rounds(rounds[..m], n, |o.slots|);
      RunAllCommits(o, rounds[..m], n);
      RunCommits(RunAll(o, rounds[..m]), rounds[m]);
      MulAdd(n, m, 1);
    }
  }
}
