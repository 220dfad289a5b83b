/**
 * Static graph utilities: the degree-preserving edge shuffle (plain and
 * type-restricted), vertex-id compaction, line-graph construction and the
 * adjacency-matrix rendering.
 */
module Graphs {
  import opened Edges
  import opened GraphModel
  import opened SwapSpec
  import opened TypeSpec
  import opened PackSpec
  import opened LineSpec
  import opened MatrixSpec

  datatype Error = IllegalArgument(message: string)

  datatype Result<T> = Ok(value: T) | Failure(error: Error)

  /**
   * A copy of `g` whose vertices are `0 .. order-1`, or `g` itself when its
   * ids are already below its order.  `vMap` is the relabelling: a bijection
   * from the vertices of `g` onto `0 .. order-1` (the identity when `g` is
   * returned), under which the edges of the result are those of `g`.
   */
  method Pack(g: Graph) returns (r: Graph, ghost vMap: map<Vertex, Vertex>)
    requires g.Valid()
    ensures r.Valid()
    ensures (forall v :: v in g.verts ==> v < g.Order()) ==> r == g
    ensures !(forall v :: v in g.verts ==> v < g.Order()) ==> fresh(r)
    ensures (forall v :: v in g.verts ==> v < g.Order()) ==> vMap == Identity(g.verts)
    ensures Bijection(vMap, g.verts) && Covers(vMap, g.edges)
    ensures r.verts == Range(g.Order())
    ensures r.edges == RelabelAll(vMap, g.edges)
    ensures r.Order() == g.Order() && r.Size() == g.Size()
  {
    var order := g.Order();
    var vertices := Enumerate(g.verts);
    var isContiguous := IsContiguous(vertices, order);
    if isContiguous {
      ContiguousIff(g.verts);
      vMap := Identity(g.verts);
      IdentityValues(g.verts);
      IdentityRelabel(g.verts, g.edges);
      RangeSize(order);
      return g, vMap;
    }

    var k :| 0 <= k < |vertices| && vertices[k] >= order;
    assert vertices[k] in g.verts;
    r, vMap := Renumber(g, vertices);
  }

  /** The relabelled copy `pack` builds when some id is not below the order. */
  method Renumber(g: Graph, vertices: seq<Vertex>) returns (r: Graph, ghost vMap: map<Vertex, Vertex>)
    requires g.Valid() && Distinct(vertices) && forall v :: v in vertices <==> v in g.verts
    ensures fresh(r) && r.Valid()
    ensures Bijection(vMap, g.verts) && Covers(vMap, g.edges)
    ensures r.verts == Range(g.Order()) && r.edges == RelabelAll(vMap, g.edges)
    ensures r.Order() == g.Order() && r.Size() == g.Size()
  {
    // The vertices, numbered in iteration order.
    var vm := Numbering(vertices);
    vMap := vm;
    assert vm.Keys == g.verts;
    var order := g.Order();
    forall v | v in vm
      ensures vm[v] < order
    {
      assert vm[v] in vm.Values;
    }
    r := VertexRange(order);
    var edges := Enumerate(g.edges);
    CopyRelabelled(r, edges, vm, order);
    assert RelabelSeq(vm, edges) == RelabelAll(vm, g.edges);
    RangeSize(order);
    RelabelKeepsSize(vm, g.edges);
  }

  /** A new graph with the vertices `0 .. order-1` and no edges. */
  method VertexRange(order: nat) returns (r: Graph)
    ensures fresh(r) && r.Valid() && r.verts == Range(order) && r.edges == {}
  {
    r := new Graph();
    for i := 0 to order
      invariant fresh(r) && r.Valid() && r.verts == Range(i) && r.edges == {}
    {
      var added := r.AddVertex(i);
    }
  }

  /** Whether every listed id is below `order`; stops at the first that is not. */
  method IsContiguous(vertices: seq<Vertex>, order: nat) returns (isContiguous: bool)
    ensures isContiguous <==> forall k :: 0 <= k < |vertices| ==> vertices[k] < order
  {
    isContiguous := true;
    for k := 0 to |vertices|
      invariant isContiguous
      invariant forall q :: 0 <= q < k ==> vertices[q] < order
    {
      if vertices[k] >= order {
        isContiguous := false;
        break;
      }
    }
  }

  /** Maps the `k`-th listed vertex to `k`. */
  method Numbering(vertices: seq<Vertex>) returns (vMap: map<Vertex, Vertex>)
    requires Distinct(vertices)
    ensures Bijection(vMap, set k | 0 <= k < |vertices| :: vertices[k])
    ensures forall k :: 0 <= k < |vertices| ==> vMap[vertices[k]] == k
  {
    vMap := map[];
    var j := 0;
    for i := 0 to |vertices|
      invariant j == i
      invariant vMap.Keys == set k | 0 <= k < i :: vertices[k]
      invariant forall k :: 0 <= k < i ==> vMap[vertices[k]] == k
    {
      assert vertices[i] !in vMap.Keys;
      vMap := vMap[vertices[i] := j];
      j := j + 1;
    }
    forall a, b | a in vMap && b in vMap && a != b
      ensures vMap[a] != vMap[b]
    {
      var p :| 0 <= p < |vertices| && vertices[p] == a;
      var q :| 0 <= q < |vertices| && vertices[q] == b;
    }
    forall v: Vertex | v < |vertices|
      ensures v in vMap.Values
    {
      assert vMap[vertices[v]] == v;
    }
    forall v | v in vMap.Values
      ensures v < |vertices|
    {
      var a :| a in vMap && vMap[a] == v;
      var p :| 0 <= p < |vertices| && vertices[p] == a;
    }
    DistinctCount(vertices);
  }

  /** Adds every listed edge to `r` with its endpoints translated through `vMap`. */
  method CopyRelabelled(r: Graph, edges: seq<Edge>, vMap: map<Vertex, Vertex>, order: nat)
    requires r.Valid() && r.verts == Range(order) && r.edges == {}
    requires forall e :: e in edges ==> e.from in vMap && e.to in vMap
    requires forall v :: v in vMap ==> vMap[v] < order
    modifies r
    ensures r.Valid() && r.verts == Range(order)
    ensures r.edges == RelabelSeq(vMap, edges)
  {
    for k := 0 to |edges|
      invariant r.Valid() && r.verts == Range(order)
      invariant r.edges == RelabelSeq(vMap, edges[..k])
    {
      var e := edges[k];
      var added := r.Add(Clone(e, vMap[e.from], vMap[e.to]));
      assert edges[..k + 1] == edges[..k] + [e];
      assert RelabelSeq(vMap, edges[..k + 1]) == RelabelSeq(vMap, edges[..k]) + {Canon(Relabel(vMap, e))};
    }
    assert edges[..|edges|] == edges;
  }

  /**
   * Shuffles all edges of `g` by double-edge swaps, keeping every vertex's
   * degree (and in- and out-degree when all edges are directed).  The
   * result is the number of committed swaps of the run that `choices`
   * records.  Both Java overloads are this method: the source of randomness
   * is the nondeterminism of the shuffle.
   */
  method ShufflePreserve(g: Graph, shufflesPerEdge: int) returns (r: Result<nat>, ghost choices: Choices)
    requires g.Valid()
    modifies g
    ensures g.Valid() && g.verts == old(g.verts)
    ensures shufflesPerEdge < 1 <==> r.Failure?
    ensures r.Failure? ==> r.error == IllegalArgument("must shuffle at least once") && g.edges == old(g.edges)
    ensures g.Size() == old(g.Size())
    ensures forall v :: Degree(g.edges, v) == Degree(old(g.edges), v)
    ensures AllDirected(old(g.edges)) ==>
      forall v :: OutDegree(g.edges, v) == OutDegree(old(g.edges), v) && InDegree(g.edges, v) == InDegree(old(g.edges), v)
    ensures Kinds(g.edges) <= Kinds(old(g.edges))
    ensures forall e :: e in g.edges && IsSelfLoop(e) ==> e in old(g.edges)
    ensures r.Ok? && old(g.Size()) < 2 ==> r.value == 0 && g.edges == old(g.edges)
    ensures r.Ok? ==> |g.edges - old(g.edges)| <= 2 * r.value
    ensures r.Ok? ==> r.value <= shufflesPerEdge * old(g.Size())
    ensures r.Ok? ==> ShuffleRun(old(g.edges), old(g.edges), shufflesPerEdge, choices, g.edges, r.value)
  {
    choices := Choices([], []);
    if shufflesPerEdge < 1 {
      return Failure(IllegalArgument("must shuffle at least once")), choices;
    }
    ghost var E := g.edges;
    var total;
    ghost var scope';
    total, scope', choices := ShuffleInternal(g, g.edges, shufflesPerEdge);
    assert E - E == {} && g.edges == scope';
    r := Ok(total);
  }

  /**
   * Shuffles the edges of each type among themselves, over a snapshot of the
   * types present on entry.  Every per-type degree and per-type edge count is
   * kept, hence the plain degrees, the order and the size too.  The result
   * is the sum of the per-type counts; `types` is the order in which the
   * types were visited and `counts` their committed swaps.  The shuffle of
   * the `k`-th type goes from the edges `stages[k]` to `stages[k + 1]` by the
   * run that `choices[k]` records.
   */
  method ShufflePreserveType(g: Graph, shufflesPerEdge: int)
    returns (r: Result<nat>, ghost types: seq<EdgeType>, ghost counts: seq<nat>,
             ghost stages: seq<set<Edge>>, ghost choices: seq<Choices>)
    requires g.Valid()
    modifies g
    ensures g.Valid() && g.verts == old(g.verts)
    ensures shufflesPerEdge < 1 <==> r.Failure?
    ensures r.Failure? ==> r.error == IllegalArgument("must shuffle at least once") && g.edges == old(g.edges)
    ensures g.Size() == old(g.Size())
    ensures forall t :: |OfType(g.edges, t)| == |OfType(old(g.edges), t)|
    ensures forall t, v :: Degree(OfType(g.edges, t), v) == Degree(OfType(old(g.edges), t), v)
    ensures forall t, v :: AllDirected(OfType(old(g.edges), t)) ==>
      OutDegree(OfType(g.edges, t), v) == OutDegree(OfType(old(g.edges), t), v) &&
      InDegree(OfType(g.edges, t), v) == InDegree(OfType(old(g.edges), t), v)
    ensures forall v :: Degree(g.edges, v) == Degree(old(g.edges), v)
    ensures Kinds(g.edges) <= Kinds(old(g.edges))
    ensures forall e :: e in g.edges && IsSelfLoop(e) ==> e in old(g.edges)
    ensures r.Ok? ==> (forall t :: t in types <==> t in old(g.EdgeTypes())) && |types| == |old(g.EdgeTypes())|
    ensures r.Ok? ==> |counts| == |types| && r.value == Sum(counts)
    ensures r.Ok? ==> forall k :: 0 <= k < |counts| ==> counts[k] <= shufflesPerEdge * |OfType(old(g.edges), types[k])|
    ensures r.Ok? ==> r.value <= shufflesPerEdge * old(g.Size())
    ensures r.Ok? ==> |stages| == |types| + 1 && |choices| == |types|
    ensures r.Ok? ==> stages[0] == old(g.edges) && stages[|types|] == g.edges
    ensures r.Ok? ==> forall k :: 0 <= k < |types| ==>
      ShuffleRun(stages[k], OfType(stages[k], types[k]), shufflesPerEdge, choices[k], stages[k + 1], counts[k])
  {
    types, counts, stages, choices := [], [], [g.edges], [];
    if shufflesPerEdge < 1 {
      return Failure(IllegalArgument("must shuffle at least once")), types, counts, stages, choices;
    }
    ghost var E0 := g.edges;
    // A copy of the types, since shuffling may change the graph's own view of them.
    var snapshot := Enumerate(g.EdgeTypes());
    types := snapshot;
    var totalShuffles;
    totalShuffles, counts, stages, choices := ShuffleTypes(g, snapshot, shufflesPerEdge);
    SumWithinSize(E0, snapshot, counts, shufflesPerEdge);
    r := Ok(totalShuffles);
  }

  /**
   * The shuffles of the edges of each type of `types` in turn.  The count of
   * the `k`-th type is `counts[k]`, and its shuffle goes from the edges
   * `stages[k]` to `stages[k + 1]` by the run that `choices[k]` records.
   */
  method ShuffleTypes(g: Graph, types: seq<EdgeType>, shufflesPerEdge: nat)
    returns (totalShuffles: nat, ghost counts: seq<nat>, ghost stages: seq<set<Edge>>, ghost choices: seq<Choices>)
    requires g.Valid()
    modifies g
    ensures g.Valid() && g.verts == old(g.verts)
    ensures TypeShuffleInv(old(g.edges), g.edges)
    ensures |counts| == |types| && totalShuffles == Sum(counts)
    ensures forall k :: 0 <= k < |counts| ==> counts[k] <= shufflesPerEdge * |OfType(old(g.edges), types[k])|
    ensures |stages| == |types| + 1 && |choices| == |types|
    ensures stages[0] == old(g.edges) && stages[|types|] == g.edges
    ensures forall k :: 0 <= k < |types| ==>
      ShuffleRun(stages[k], OfType(stages[k], types[k]), shufflesPerEdge, choices[k], stages[k + 1], counts[k])
  {
    ghost var E0 := g.edges;
    TypeShuffleStarts(E0);
    counts, stages, choices := [], [g.edges], [];
    totalShuffles := 0;
    for k := 0 to |types|
      invariant g.Valid() && g.verts == old(g.verts)
      invariant TypeShuffleInv(E0, g.edges)
      invariant |counts| == k && totalShuffles == Sum(counts)
      invariant forall q :: 0 <= q < k ==> counts[q] <= shufflesPerEdge * |OfType(E0, types[q])|
      invariant |stages| == k + 1 && |choices| == k && stages[0] == E0 && stages[k] == g.edges
      invariant forall q :: 0 <= q < k ==>
        ShuffleRun(stages[q], OfType(stages[q], types[q]), shufflesPerEdge, choices[q], stages[q + 1], counts[q])
    {
      assert |OfType(g.edges, types[k])| == |OfType(E0, types[k])|;
      var shuffles;
      ghost var c;
      shuffles, c := ShuffleType(g, types[k], shufflesPerEdge, E0);
      SumSnoc(counts, shuffles);
      BoundsSnoc(E0, types, counts, shufflesPerEdge, shuffles);
      RunsSnoc(stages, types, shufflesPerEdge, choices, counts, c, g.edges, shuffles);
      counts := counts + [shuffles];
      stages := stages + [g.edges];
      choices := choices + [c];
      totalShuffles := totalShuffles + shuffles;
    }
  }

  /**
   * The shuffle of the edges of type `t` alone: they are replaced by as many
   * edges of type `t`, and the edges of every other type stay as they were.
   */
  method ShuffleType(g: Graph, t: EdgeType, shufflesPerEdge: nat, ghost E0: set<Edge>)
    returns (shuffles: nat, ghost choices: Choices)
    requires g.Valid() && TypeShuffleInv(E0, g.edges)
    modifies g
    ensures g.Valid() && g.verts == old(g.verts)
    ensures TypeShuffleInv(E0, g.edges)
    ensures forall u :: u != t ==> OfType(g.edges, u) == OfType(old(g.edges), u)
    ensures shuffles <= shufflesPerEdge * |OfType(old(g.edges), t)|
    ensures |OfType(g.edges, t) - OfType(old(g.edges), t)| <= 2 * shuffles
    ensures ShuffleRun(old(g.edges), OfType(old(g.edges), t), shufflesPerEdge, choices, g.edges, shuffles)
  {
    ghost var E := g.edges;
    var edges := g.EdgesOfType(t);
    ghost var scope';
    shuffles, scope', choices := ShuffleInternal(g, edges, shufflesPerEdge);
    TypeReplaced(E, g.edges, t, scope');
    TypeStep(E0, E, g.edges, t, scope');
  }

  /**
   * Shuffles the edges of `scope`, a set of edges of `g`, with double-edge
   * swaps, using `g` to reject candidates that already exist.  Every scoped
   * edge gets `shufflesPerEdge` attempts, each with a partner chosen among the
   * other scoped edges; the result is the number of committed swaps.
   *
   * The random choices (the partner index, the coin that flips an undirected
   * edge) are nondeterministic: the contract holds for every outcome.
   * `scope'` is the scope's edges afterwards, and `choices` records the
   * order the scope was listed in and every attempt made: the result is the
   * number of those attempts that committed.
   */
  method ShuffleInternal(g: Graph, scope: set<Edge>, shufflesPerEdge: nat)
    returns (totalShuffles: nat, ghost scope': set<Edge>, ghost choices: Choices)
    requires g.Valid() && scope <= g.edges
    modifies g
    ensures g.Valid() && g.verts == old(g.verts)
    ensures g.Size() == old(g.Size())
    ensures g.edges == (old(g.edges) - scope) + scope' && (old(g.edges) - scope) !! scope'
    ensures |scope'| == |scope|
    ensures forall v :: Degree(scope', v) == Degree(scope, v)
    ensures AllDirected(scope) ==>
      forall v :: OutDegree(scope', v) == OutDegree(scope, v) && InDegree(scope', v) == InDegree(scope, v)
    ensures Kinds(scope') <= Kinds(scope)
    ensures forall e :: e in g.edges && IsSelfLoop(e) ==> e in old(g.edges)
    ensures |scope| < 2 ==> totalShuffles == 0 && g.edges == old(g.edges)
    ensures |scope' - scope| <= 2 * totalShuffles
    ensures totalShuffles <= shufflesPerEdge * |scope|
    ensures ShuffleRun(old(g.edges), scope, shufflesPerEdge, choices, g.edges, totalShuffles)
  {
    totalShuffles := 0;
    var numEdges := |scope|;
    scope', choices := scope, Choices([], []);
    if numEdges < 2 {
      assert g.edges == (g.edges - scope) + scope && scope - scope == {};
      return;
    }

    // The scoped edges, copied once into an array in the set's iteration order.
    var listed := Enumerate(scope);
    var edgeArray := ToArray(listed);
    ghost var rest := g.edges - scope;
    ghost var initial := edgeArray[..];
    ShuffleStarts(g.edges, initial, scope);

    ghost var rounds;
    totalShuffles, rounds := ShuffleSlots(g, edgeArray, shufflesPerEdge, rest, scope, initial);
    choices := Choices(initial, rounds);
    ghost var shuffled := edgeArray[..];
    scope' := Elements(shuffled);
    ShuffleEnds(g.edges, shuffled, rest, scope, initial);
  }

  /** A fresh array holding the elements of `xs` in order. */
  method ToArray(xs: seq<Edge>) returns (a: array<Edge>)
    ensures fresh(a) && a[..] == xs
  {
    a := new Edge[|xs|](k requires 0 <= k < |xs| => xs[k]);
  }

  /** Every slot of the array in turn gets `shufflesPerEdge` attempts. */
  method ShuffleSlots(g: Graph, edgeArray: array<Edge>, shufflesPerEdge: nat,
                      ghost rest: set<Edge>, ghost scope: set<Edge>, ghost initial: seq<Edge>)
    returns (totalShuffles: nat, ghost rounds: seq<seq<Attempt>>)
    requires g.Valid() && 2 <= edgeArray.Length
    requires ShuffleInv(g.edges, edgeArray[..], rest, scope, initial)
    modifies g, edgeArray
    ensures g.Valid() && g.verts == old(g.verts) && |g.edges| == old(|g.edges|)
    ensures ShuffleInv(g.edges, edgeArray[..], rest, scope, initial)
    ensures Schedule(rounds, shufflesPerEdge, edgeArray.Length)
    ensures RunAll(Outcome(old(g.edges), old(edgeArray[..]), 0), rounds) == Outcome(g.edges, edgeArray[..], totalShuffles)
    ensures |Elements(edgeArray[..]) - scope| <= old(|Elements(edgeArray[..]) - scope|) + 2 * totalShuffles
    ensures totalShuffles <= shufflesPerEdge * edgeArray.Length
  {
    totalShuffles, rounds := 0, [];
    ghost var before := |Elements(edgeArray[..]) - scope|;
    ghost var start := Outcome(g.edges, edgeArray[..], 0);
    for i := 0 to edgeArray.Length
      invariant g.Valid() && g.verts == old(g.verts) && |g.edges| == old(|g.edges|)
      invariant ShuffleInv(g.edges, edgeArray[..], rest, scope, initial)
      invariant |Elements(edgeArray[..]) - scope| <= before + 2 * totalShuffles
      invariant |rounds| == i && Rounds(rounds, shufflesPerEdge, edgeArray.Length)
      invariant RunAll(start, rounds) == Outcome(g.edges, edgeArray[..], totalShuffles)
    {
      ghost var trace;
      totalShuffles, trace := ShuffleSlot(g, edgeArray, i, shufflesPerEdge, totalShuffles, rest, scope, initial);
      RoundsSnoc(start, rounds, shufflesPerEdge, trace);
      rounds := rounds + [trace];
    }
    RunAllCommits(start, rounds, shufflesPerEdge);
  }

  /**
   * The `shufflesPerEdge` attempts for the edge in slot `i`, counted on from
   * `total`.  `trace` records the attempts, and running them from the state
   * on entry gives the state on exit, with `total'` the running count.
   */
  method ShuffleSlot(g: Graph, edgeArray: array<Edge>, i: nat, shufflesPerEdge: nat, total: nat,
                     ghost rest: set<Edge>, ghost scope: set<Edge>, ghost initial: seq<Edge>)
    returns (total': nat, ghost trace: seq<Attempt>)
    requires g.Valid() && 2 <= edgeArray.Length && i < edgeArray.Length
    requires ShuffleInv(g.edges, edgeArray[..], rest, scope, initial)
    modifies g, edgeArray
    ensures g.Valid() && g.verts == old(g.verts) && |g.edges| == old(|g.edges|)
    ensures ShuffleInv(g.edges, edgeArray[..], rest, scope, initial)
    ensures Round(trace, i, shufflesPerEdge, edgeArray.Length)
    ensures Run(Outcome(old(g.edges), old(edgeArray[..]), total), trace) == Outcome(g.edges, edgeArray[..], total')
    ensures total <= total' <= total + shufflesPerEdge
    ensures |Elements(edgeArray[..]) - scope| <= old(|Elements(edgeArray[..]) - scope|) + 2 * (total' - total)
  {
    total', trace := total, [];
    ghost var before := |Elements(edgeArray[..]) - scope|;
    ghost var start := Outcome(g.edges, edgeArray[..], total);
    for swap := 0 to shufflesPerEdge
      invariant g.Valid() && g.verts == old(g.verts) && |g.edges| == old(|g.edges|)
      invariant ShuffleInv(g.edges, edgeArray[..], rest, scope, initial)
      invariant total <= total' <= total + swap
      invariant |Elements(edgeArray[..]) - scope| <= before + 2 * (total' - total)
      invariant Round(trace, i, swap, edgeArray.Length)
      invariant Run(start, trace) == Outcome(g.edges, edgeArray[..], total')
    {
      var ok, j, flip1, flip2 := TrySwap(g, edgeArray, i, total', rest, scope, initial);
      ghost var a := Attempt(i, j, flip1, flip2);
      RunSnoc(start, trace, a);
      RoundSnoc(trace, i, swap, edgeArray.Length, a);
      trace := trace + [a];
      if ok {
        total' := total' + 1;
      }
    }
  }

  /**
   * One attempt for the edge in slot `i`: pick a partner slot `j` other than
   * `i` and a coin for each edge (`flip1`, `flip2`), then try the exchange
   * (`SwapWith`).  A commit replaces the two old edges by the candidates, in
   * `g` and in slots `i` and `j`; a rejected attempt changes nothing.  Either
   * way the attempt is one `Step` of a run that has committed `total` swaps
   * so far.
   */
  method TrySwap(g: Graph, edgeArray: array<Edge>, i: nat, ghost total: nat,
                 ghost rest: set<Edge>, ghost scope: set<Edge>, ghost initial: seq<Edge>)
    returns (committed: bool, j: nat, flip1: bool, flip2: bool)
    requires g.Valid() && 2 <= edgeArray.Length && i < edgeArray.Length
    requires ShuffleInv(g.edges, edgeArray[..], rest, scope, initial)
    modifies g, edgeArray
    ensures j < edgeArray.Length && j != i
    ensures committed <==> Accepts(old(g.edges), Candidates(old(edgeArray[i]), old(edgeArray[j]), flip1, flip2).0,
                                   Candidates(old(edgeArray[i]), old(edgeArray[j]), flip1, flip2).1)
    ensures committed ==>
      var (s1, s2) := Candidates(old(edgeArray[i]), old(edgeArray[j]), flip1, flip2);
      && g.edges == Commit(old(g.edges), old(edgeArray[i]), old(edgeArray[j]), s1, s2)
      && edgeArray[..] == old(edgeArray[..])[i := s1][j := s2]
    ensures !committed ==> g.edges == old(g.edges) && edgeArray[..] == old(edgeArray[..])
    ensures committed ==> Step(Outcome(old(g.edges), old(edgeArray[..]), total), Attempt(i, j, flip1, flip2))
                          == Outcome(g.edges, edgeArray[..], total + 1)
    ensures !committed ==> Step(Outcome(old(g.edges), old(edgeArray[..]), total), Attempt(i, j, flip1, flip2))
                           == Outcome(g.edges, edgeArray[..], total)
    ensures g.Valid() && g.verts == old(g.verts) && |g.edges| == old(|g.edges|)
    ensures ShuffleInv(g.edges, edgeArray[..], rest, scope, initial)
    ensures |Elements(edgeArray[..]) - scope| <= old(|Elements(edgeArray[..]) - scope|) + 2
  {
    var numEdges := edgeArray.Length;
    // A partner index other than i.
    j :| 0 <= j < numEdges && j != i;
    // The coins for the random flip of undirected edges.
    flip1 :| true;
    flip2 :| true;
    committed := SwapWith(g, edgeArray, i, j, flip1, flip2, total, rest, scope, initial);
  }

  /**
   * The exchange between slots `i` and `j` with the coins `flip1` and
   * `flip2`: flip each undirected edge whose coin is set, exchange the `to`
   * endpoints, and commit unless a candidate is already in `g`, is a
   * self-loop, or equals the other candidate.
   */
  method SwapWith(g: Graph, edgeArray: array<Edge>, i: nat, j: nat, flip1: bool, flip2: bool, ghost total: nat,
                  ghost rest: set<Edge>, ghost scope: set<Edge>, ghost initial: seq<Edge>)
    returns (committed: bool)
    requires g.Valid() && i < edgeArray.Length && j < edgeArray.Length && j != i
    requires ShuffleInv(g.edges, edgeArray[..], rest, scope, initial)
    modifies g, edgeArray
    ensures committed <==> Accepts(old(g.edges), Candidates(old(edgeArray[i]), old(edgeArray[j]), flip1, flip2).0,
                                   Candidates(old(edgeArray[i]), old(edgeArray[j]), flip1, flip2).1)
    ensures committed ==>
      var (s1, s2) := Candidates(old(edgeArray[i]), old(edgeArray[j]), flip1, flip2);
      && g.edges == Commit(old(g.edges), old(edgeArray[i]), old(edgeArray[j]), s1, s2)
      && edgeArray[..] == old(edgeArray[..])[i := s1][j := s2]
    ensures !committed ==> g.edges == old(g.edges) && edgeArray[..] == old(edgeArray[..])
    ensures committed ==> Step(Outcome(old(g.edges), old(edgeArray[..]), total), Attempt(i, j, flip1, flip2))
                          == Outcome(g.edges, edgeArray[..], total + 1)
    ensures !committed ==> Step(Outcome(old(g.edges), old(edgeArray[..]), total), Attempt(i, j, flip1, flip2))
                           == Outcome(g.edges, edgeArray[..], total)
    ensures g.Valid() && g.verts == old(g.verts) && |g.edges| == old(|g.edges|)
    ensures ShuffleInv(g.edges, edgeArray[..], rest, scope, initial)
    ensures |Elements(edgeArray[..]) - scope| <= old(|Elements(edgeArray[..]) - scope|) + 2
  {
    var e1, e2 := edgeArray[i], edgeArray[j];
    if !e1.directed && flip1 {
      e1 := Flip(e1);
    }
    if !e2.directed && flip2 {
      e2 := Flip(e2);
    }
    var swapped1 := Clone(e1, e1.from, e2.to);
    var swapped2 := Clone(e2, e2.from, e1.to);
    // Rejected: a candidate already exists, a candidate is a self-loop, or
    // the two candidates are one and the same edge.
    var rejected := g.Contains(swapped1) || g.Contains(swapped2)
      || swapped1.from == swapped1.to || swapped2.from == swapped2.to
      || Same(swapped1, swapped2);
    assert (swapped1, swapped2) == Candidates(edgeArray[i], edgeArray[j], flip1, flip2);
    assert rejected == !Accepts(g.edges, swapped1, swapped2);
    if rejected {
      StepRejects(Outcome(g.edges, edgeArray[..], total), Attempt(i, j, flip1, flip2), swapped1, swapped2);
      return false;
    }

    CommitSwap(g, edgeArray, i, j, flip1, flip2, swapped1, swapped2, total, rest, scope, initial);
    committed := true;
  }

  /**
   * A committed swap: the edges in slots `i` and `j` give way to the two
   * accepted candidates, in `g` and in the array.  The shuffle's invariant
   * survives, and at most two edges outside the scope appear.
   */
  method CommitSwap(g: Graph, edgeArray: array<Edge>, i: nat, j: nat, ghost flip1: bool, ghost flip2: bool,
                    swapped1: Edge, swapped2: Edge, ghost total: nat,
                    ghost rest: set<Edge>, ghost scope: set<Edge>, ghost initial: seq<Edge>)
    requires g.Valid() && i < edgeArray.Length && j < edgeArray.Length && i != j
    requires ShuffleInv(g.edges, edgeArray[..], rest, scope, initial)
    requires (swapped1, swapped2) == Candidates(edgeArray[i], edgeArray[j], flip1, flip2)
    requires Accepts(g.edges, swapped1, swapped2)
    modifies g, edgeArray
    ensures g.edges == Commit(old(g.edges), old(edgeArray[i]), old(edgeArray[j]), swapped1, swapped2)
    ensures edgeArray[..] == old(edgeArray[..])[i := swapped1][j := swapped2]
    ensures g.Valid() && g.verts == old(g.verts) && |g.edges| == old(|g.edges|)
    ensures ShuffleInv(g.edges, edgeArray[..], rest, scope, initial)
    ensures |Elements(edgeArray[..]) - scope| <= old(|Elements(edgeArray[..]) - scope|) + 2
    ensures Step(Outcome(old(g.edges), old(edgeArray[..]), total), Attempt(i, j, flip1, flip2))
         == Outcome(g.edges, edgeArray[..], total + 1)
  {
    ghost var s, E := edgeArray[..], g.edges;
    ghost var e1, e2 := s[i], s[j];
    AttemptKeepsInv(E, s, rest, scope, initial, i, j, flip1, flip2);
    CandidatesKeepEndpoints(e1, e2, flip1, flip2, 0);
    assert Canon(e1) in E && Canon(e2) in E;
    ReplaceSlots(g, edgeArray, i, j, swapped1, swapped2);
    StepCommits(Outcome(E, s, total), Attempt(i, j, flip1, flip2), swapped1, swapped2, g.edges, edgeArray[..], total + 1);
  }

  /**
   * Removes the edges in slots `i` and `j` from `g`, adds the two new edges,
   * and overwrites the two slots with them.
   */
  method ReplaceSlots(g: Graph, edgeArray: array<Edge>, i: nat, j: nat, swapped1: Edge, swapped2: Edge)
    requires g.Valid() && i < edgeArray.Length && j < edgeArray.Length && i != j
    requires swapped1.from in g.verts && swapped1.to in g.verts
    requires swapped2.from in g.verts && swapped2.to in g.verts
    modifies g, edgeArray
    ensures g.Valid() && g.verts == old(g.verts)
    ensures g.edges == Commit(old(g.edges), old(edgeArray[i]), old(edgeArray[j]), swapped1, swapped2)
    ensures edgeArray[..] == old(edgeArray[..])[i := swapped1][j := swapped2]
  {
    var removed1 := g.Remove(edgeArray[i]);
    var removed2 := g.Remove(edgeArray[j]);
    var added1 := g.Add(swapped1);
    var added2 := g.Add(swapped2);
    edgeArray[i] := swapped1;
    edgeArray[j] := swapped2;
  }

  /**
   * The line graph of `graph` with a fresh indexer: the ids `0 .. size-1`
   * go to the edges in the order they are first met.
   */
  method ToLineGraphFresh(graph: Graph) returns (lineGraph: Graph, ghost ids: map<Edge, nat>)
    requires graph.Valid()
    ensures fresh(lineGraph) && lineGraph.Valid()
    ensures ids.Keys == graph.edges
    ensures forall e :: e in ids ==> ids[e] < |graph.edges|
    ensures forall a, b :: a in ids && b in ids && a != b ==> ids[a] != ids[b]
    ensures lineGraph.edges == LineEdges(graph.edges, ids)
    ensures lineGraph.verts == Endpoints(lineGraph.edges)
  {
    var edgeIndices := new Indexer();
    lineGraph := ToLineGraph(graph, edgeIndices);
    edgeIndices.Injective();
    ids := edgeIndices.ids;
  }

  /**
   * The line graph of `graph`: every two distinct edges that share an
   * endpoint give an undirected edge between their ids.  An edge not yet
   * known to `edgeIndices` gets the next id; known ids stay.
   */
  method ToLineGraph(graph: Graph, edgeIndices: Indexer) returns (lineGraph: Graph)
    requires graph.Valid() && edgeIndices.Valid()
    modifies edgeIndices
    ensures fresh(lineGraph) && lineGraph.Valid()
    ensures edgeIndices.Valid() && Extends(old(edgeIndices.ids), edgeIndices.ids)
    ensures edgeIndices.ids.Keys == old(edgeIndices.ids.Keys) + graph.edges
    ensures lineGraph.edges == LineEdges(graph.edges, edgeIndices.ids)
    ensures lineGraph.verts == Endpoints(lineGraph.edges)
    ensures forall c :: c in lineGraph.edges ==> !IsSelfLoop(c) && !c.directed && c.etype == Untyped
  {
    lineGraph := new Graph();
    var verts := Enumerate(graph.verts);
    ghost var E := graph.edges;
    LineStateStarts(edgeIndices.ids);
    ghost var done := VisitAll(graph, lineGraph, edgeIndices, verts, E);
    ListedAll(verts);
    assert Listed(verts, |verts|) == graph.verts;
    VisitedAll(E, graph.verts, done, edgeIndices.ids);
    LineStateValid(lineGraph.edges, lineGraph.verts, done, edgeIndices.ids);
    edgeIndices.Injective();
    LineEdgesSimple(E, edgeIndices.ids);
  }

  /** Visits the listed vertices in turn, linking the edges around each. */
  method VisitAll(graph: Graph, lineGraph: Graph, edgeIndices: Indexer, verts: seq<Vertex>, ghost E: set<Edge>)
    returns (ghost done: set<(Edge, Edge)>)
    requires graph.Valid() && graph.edges == E && graph != lineGraph
    requires LineState(lineGraph.edges, lineGraph.verts, {}, edgeIndices.ids) && edgeIndices.Valid()
    modifies lineGraph, edgeIndices
    ensures LineState(lineGraph.edges, lineGraph.verts, done, edgeIndices.ids) && PairsOf(done, E)
    ensures edgeIndices.Valid() && Extends(old(edgeIndices.ids), edgeIndices.ids)
    ensures edgeIndices.ids.Keys == old(edgeIndices.ids.Keys) + IncidentTo(E, Listed(verts, |verts|))
    ensures forall a, b :: a in E && b in E && a != b && SharedIn(a, b, Listed(verts, |verts|)) ==> Covered(done, a, b)
  {
    ghost var ids0, keys0 := edgeIndices.ids, edgeIndices.ids.Keys;
    done := {};
    for i := 0 to |verts|
      invariant graph.edges == E
      invariant LineState(lineGraph.edges, lineGraph.verts, done, edgeIndices.ids) && PairsOf(done, E)
      invariant edgeIndices.Valid() && Extends(ids0, edgeIndices.ids)
      invariant edgeIndices.ids.Keys == keys0 + IncidentTo(E, Listed(verts, i))
      invariant forall a, b :: a in E && b in E && a != b && SharedIn(a, b, Listed(verts, i)) ==> Covered(done, a, b)
    {
      done := Visit(graph, lineGraph, edgeIndices, verts[i], E, ids0, keys0, Listed(verts, i), done);
    }
  }

  /**
   * The links around vertex `v`, stated as the step of `ToLineGraph` from the
   * vertices `visited` to `visited + {v}`: the edges at `v` get ids and every
   * two of them that share a vertex are linked.
   */
  method Visit(graph: Graph, lineGraph: Graph, edgeIndices: Indexer, v: Vertex,
               ghost E: set<Edge>, ghost ids0: map<Edge, nat>, ghost keys0: set<Edge>,
               ghost visited: set<Vertex>, ghost done: set<(Edge, Edge)>)
    returns (ghost done': set<(Edge, Edge)>)
    requires graph.Valid() && graph.edges == E
    requires LineState(lineGraph.edges, lineGraph.verts, done, edgeIndices.ids) && PairsOf(done, E)
    requires edgeIndices.Valid() && Extends(ids0, edgeIndices.ids)
    requires edgeIndices.ids.Keys == keys0 + IncidentTo(E, visited)
    requires forall a, b :: a in E && b in E && a != b && SharedIn(a, b, visited) ==> Covered(done, a, b)
    modifies lineGraph, edgeIndices
    ensures LineState(lineGraph.edges, lineGraph.verts, done', edgeIndices.ids) && PairsOf(done', E)
    ensures edgeIndices.Valid() && Extends(ids0, edgeIndices.ids)
    ensures edgeIndices.ids.Keys == keys0 + IncidentTo(E, visited + {v})
    ensures forall a, b :: a in E && b in E && a != b && SharedIn(a, b, visited + {v}) ==> Covered(done', a, b)
  {
    var adjacent := Enumerate(graph.AdjacencyList(v));
    VisitStep(E, visited, v, adjacent, keys0);
    BelowCovers(adjacent, E, v);
    CoverStep(E, visited, v, adjacent, done, Below(adjacent, |adjacent|));
    ghost var ids := edgeIndices.ids;
    done' := LinkAround(lineGraph, edgeIndices, adjacent, E, v, done);
    ExtendsTrans(ids0, ids, edgeIndices.ids);
  }

  /**
   * The links around one vertex: each edge of its adjacency list is indexed
   * and linked to every edge listed before it.
   */
  method LinkAround(lineGraph: Graph, edgeIndices: Indexer, adjacent: seq<Edge>,
                    ghost E: set<Edge>, ghost v: Vertex, ghost done: set<(Edge, Edge)>)
    returns (ghost done': set<(Edge, Edge)>)
    requires LineState(lineGraph.edges, lineGraph.verts, done, edgeIndices.ids)
    requires edgeIndices.Valid() && PairsOf(done, E)
    requires Distinct(adjacent) && forall e :: e in adjacent ==> e in E && Incident(e, v) && Canon(e) == e
    modifies lineGraph, edgeIndices
    ensures LineState(lineGraph.edges, lineGraph.verts, done', edgeIndices.ids)
    ensures edgeIndices.Valid() && Extends(old(edgeIndices.ids), edgeIndices.ids)
    ensures edgeIndices.ids.Keys == old(edgeIndices.ids.Keys) + (set e | e in adjacent)
    ensures done' == done + Below(adjacent, |adjacent|) && PairsOf(done', E)
    ensures forall a, b :: a in adjacent && b in adjacent && a != b ==> Covered(Below(adjacent, |adjacent|), a, b)
  {
    ghost var ids0, keys0 := edgeIndices.ids, edgeIndices.ids.Keys;
    done' := done;
    for p := 0 to |adjacent|
      invariant LineState(lineGraph.edges, lineGraph.verts, done', edgeIndices.ids)
      invariant edgeIndices.Valid() && Extends(ids0, edgeIndices.ids)
      invariant edgeIndices.ids.Keys == keys0 + Listed(adjacent, p)
      invariant done' == done + Below(adjacent, p)
    {
      done' := LinkEdge(lineGraph, edgeIndices, adjacent, p, ids0, keys0, done, done');
    }
    BelowCovers(adjacent, E, v);
    ListedAll(adjacent);
  }

  /**
   * Indexes edge `p` of the adjacency list and links it to the edges listed
   * before it; stated as the step from `p` to `p + 1` of `LinkAround`.
   */
  method LinkEdge(lineGraph: Graph, edgeIndices: Indexer, adjacent: seq<Edge>, p: nat,
                  ghost ids0: map<Edge, nat>, ghost keys0: set<Edge>,
                  ghost done0: set<(Edge, Edge)>, ghost done: set<(Edge, Edge)>)
    returns (ghost done': set<(Edge, Edge)>)
    requires p < |adjacent| && Distinct(adjacent) && forall e :: e in adjacent ==> Canon(e) == e
    requires LineState(lineGraph.edges, lineGraph.verts, done, edgeIndices.ids)
    requires edgeIndices.Valid() && Extends(ids0, edgeIndices.ids)
    requires edgeIndices.ids.Keys == keys0 + Listed(adjacent, p)
    requires done == done0 + Below(adjacent, p)
    modifies lineGraph, edgeIndices
    ensures LineState(lineGraph.edges, lineGraph.verts, done', edgeIndices.ids)
    ensures edgeIndices.Valid() && Extends(ids0, edgeIndices.ids)
    ensures edgeIndices.ids.Keys == keys0 + Listed(adjacent, p + 1)
    ensures done' == done0 + Below(adjacent, p + 1)
  {
    ghost var ids, L, V := edgeIndices.ids, lineGraph.edges, lineGraph.verts;
    ListedHas(adjacent, p);
    ListStep(adjacent, p, done0, keys0);
    NoEarlierSame(adjacent, p);
    assert adjacent[p] in adjacent;
    var e1vertex := edgeIndices.Index(adjacent[p]);
    LineStateExtend(L, V, done, ids, edgeIndices.ids);
    ExtendsTrans(ids0, ids, edgeIndices.ids);
    LineStateValid(L, V, done, edgeIndices.ids);
    RowState(L, V, done, edgeIndices.ids, adjacent, p, p);
    LinkRow(lineGraph, edgeIndices, adjacent, p, e1vertex);
    done' := done + Row(adjacent, p, p);
  }

  /**
   * Links edge `p` of the adjacency list to each edge listed before it,
   * stopping at the first edge equal to edge `p`.  Those edges already have
   * ids, so the indexer is unchanged.
   */
  method LinkRow(lineGraph: Graph, edgeIndices: Indexer, adjacent: seq<Edge>, p: nat, e1vertex: nat)
    requires p < |adjacent|
    requires edgeIndices.Valid() && adjacent[p] in edgeIndices.ids && edgeIndices.ids[adjacent[p]] == e1vertex
    requires forall k :: 0 <= k < p ==>
      adjacent[k] in edgeIndices.ids && Canon(adjacent[k]) == adjacent[k] && !Same(adjacent[p], adjacent[k])
    requires lineGraph.Valid()
    modifies lineGraph, edgeIndices
    ensures edgeIndices.Valid() && edgeIndices.ids == old(edgeIndices.ids) && lineGraph.Valid()
    ensures lineGraph.edges == old(lineGraph.edges) + RowLinks(adjacent, edgeIndices.ids, p, p)
    ensures lineGraph.verts == old(lineGraph.verts) + RowIds(adjacent, edgeIndices.ids, p, p)
  {
    ghost var ids0, L0, V0 := edgeIndices.ids, lineGraph.edges, lineGraph.verts;
    var q := 0;
    while q < |adjacent| && !Same(adjacent[p], adjacent[q])
      invariant q <= p
      invariant edgeIndices.Valid() && edgeIndices.ids == ids0 && lineGraph.Valid()
      invariant lineGraph.edges == L0 + RowLinks(adjacent, ids0, p, q)
      invariant lineGraph.verts == V0 + RowIds(adjacent, ids0, p, q)
      decreases p - q
    {
      assert q < p;
      LinkPair(lineGraph, edgeIndices, adjacent, p, q, e1vertex, ids0, L0, V0);
      q := q + 1;
    }
    // Edge `p` is the first listed edge equal to itself.
    assert q == p;
  }

  /**
   * Links edge `p` of the adjacency list to edge `q`, listed before it: looks
   * up the id of edge `q` and adds the line-graph edge; stated as the step
   * from `q` to `q + 1` of `LinkRow`.
   */
  method LinkPair(lineGraph: Graph, edgeIndices: Indexer, adjacent: seq<Edge>, p: nat, q: nat, e1vertex: nat,
                  ghost ids0: map<Edge, nat>, ghost L0: set<Edge>, ghost V0: set<Vertex>)
    requires q < p < |adjacent|
    requires adjacent[p] in ids0 && ids0[adjacent[p]] == e1vertex
    requires forall k :: 0 <= k < p ==> adjacent[k] in ids0 && Canon(adjacent[k]) == adjacent[k]
    requires edgeIndices.Valid() && edgeIndices.ids == ids0 && lineGraph.Valid()
    requires lineGraph.edges == L0 + RowLinks(adjacent, ids0, p, q)
    requires lineGraph.verts == V0 + RowIds(adjacent, ids0, p, q)
    modifies lineGraph, edgeIndices
    ensures edgeIndices.Valid() && edgeIndices.ids == ids0 && lineGraph.Valid()
    ensures lineGraph.edges == L0 + RowLinks(adjacent, ids0, p, q + 1)
    ensures lineGraph.verts == V0 + RowIds(adjacent, ids0, p, q + 1)
  {
    RowLinksStep(adjacent, ids0, p, q, L0, V0, {});
    var e2vertex := edgeIndices.Index(adjacent[q]);
    var added := lineGraph.Add(LineEdge(e1vertex, e2vertex));
  }

  /**
   * The adjacency matrix of `g` as text: for every vertex in iteration order
   * (`vs`), a line with one character per vertex in the same order, '1' where
   * `g` holds the directed, untyped edge between them and '0' elsewhere.
   * `MatrixCell`, `MatrixNewline` and `MatrixLength` say where each entry sits.
   */
  method ToAdjacencyMatrixString(g: Graph) returns (s: string, ghost vs: seq<Vertex>)
    ensures |vs| == g.Order() && Distinct(vs) && forall v :: v in vs <==> v in g.verts
    ensures s == Matrix(g.edges, vs, vs)
    ensures |s| == g.Order() * (g.Order() + 1)
  {
    var vertices := Enumerate(g.verts);
    vs := vertices;
    s := [];
    for i := 0 to |vertices|
      invariant s == Matrix(g.edges, vertices[..i], vertices)
    {
      var line := MatrixLine(g, vertices[i], vertices);
      assert vertices[..i + 1][..i] == vertices[..i];
      s := s + line + ['\n'];
    }
    assert vertices[..|vertices|] == vertices;
    MatrixLength(g.edges, vertices, vertices);
  }

  /** The entries of the line of `from`: '1' for each listed vertex it has an edge to, else '0'. */
  method MatrixLine(g: Graph, from: Vertex, vertices: seq<Vertex>) returns (line: string)
    ensures line == MatrixRow(g.edges, from, vertices)
  {
    line := [];
    for j := 0 to |vertices|
      invariant line == MatrixRow(g.edges, from, vertices[..j])
    {
      assert vertices[..j + 1][..j] == vertices[..j];
      if g.Contains(Probe(from, vertices[j])) {
        line := line + ['1'];
      } else {
        line := line + ['0'];
      }
    }
    assert vertices[..|vertices|] == vertices;
  }
}
