# Graph utilities of the S-Space graph package, in Dafny

This project models the static helpers of `edu.ucla.sspace.graph.Graphs`:

- the degree-preserving edge shuffle, which works by double-edge swaps (`shufflePreserve`, `shuffleInternal`);
- its type-restricted variant for multigraphs (`shufflePreserveType`);
- vertex-id compaction (`pack`);
- line-graph construction (`toLineGraph`);
- rendering a graph as an adjacency-matrix string (`toAdjacencyMatrixString`).

The helpers change graphs in place, so they are imperative Dafny. A graph is a `class` with a vertex set and an edge set. The methods carry `modifies` clauses. The shuffle works on an `array` of edges, as the source does. Every loop carries invariants. Each method is proved against value-level specification functions, and lemmas state what those functions mean.

Layout:

- `arith.dfy` (`Arith`) holds two facts about products, used by the bounds on the swap counts.
- `edges.dfy` (`Edges`) covers edges, their kinds, edge equality and per-vertex degree counts.
  - Edge equality is Java `equals`: directed edges compare endpoint by endpoint, undirected edges up to orientation.
  - `Canon` picks one representative per equality class.
  - Degree counts cover the plain degree and, for directed edges, the in- and out-degree.
- `graph.dfy` (`GraphModel`) holds the collaborators, given as contracts:
  - a mutable `Graph` (add, remove, contains, adjacency list, edges of one type);
  - an edge `Indexer` that gives a new edge the next unused id;
  - `Enumerate`, which is set iteration in an order the collection chooses.
- `swap.dfy` (`SwapSpec`) models one swap attempt as values and holds the invariant of the shuffle loop. It also models a whole shuffle as a run of recorded attempts (`Step`, `Run`, `RunAll`, `ShuffleRun`), which ties the returned count to the swaps committed.
- `typed.dfy` (`TypeSpec`) holds the invariant of the per-type shuffle.
- `pack.dfy` (`PackSpec`) covers relabelling through a bijection onto `0 .. order-1`.
- `line.dfy` (`LineSpec`) defines the line graph of an edge set under an id map, and the bookkeeping of its construction.
- `matrix.dfy` (`MatrixSpec`) gives the text of the adjacency matrix and where each entry sits.
- `graphs.dfy` (`Graphs`) holds the helpers themselves.

Randomness, in the partner index and the coin that flips an undirected edge, is nondeterministic choice. Every contract of the shuffle therefore holds for every outcome of the random source, so the overloads with and without a `Random` argument are one method each.

## Model

Source paths are relative to the repository root. All rows cite `src/main/java/edu/ucla/sspace/graph/Graphs.java`.

| member | source | states |
|---|---|---|
| Graphs.Pack | src/main/java/edu/ucla/sspace/graph/Graphs.java:90-115 | Always returns a graph with vertices `0 .. order-1`, the same order and the same size, whose edges are exactly the input's edges relabelled through a bijection `vMap` from the input's vertices onto `0 .. order-1`. If every id is already below the order, it returns the input graph itself (with the identity as relabelling); otherwise it returns a fresh copy. |
| Graphs.Renumber | src/main/java/edu/ucla/sspace/graph/Graphs.java:102-114 | The copy built when some id is not below the order: fresh, with vertices `0 .. order-1` and the relabelled edges, the same number of edges, and a relabelling that is a bijection. |
| Graphs.IsContiguous | src/main/java/edu/ucla/sspace/graph/Graphs.java:91-98 | The early-exit scan answers true exactly when every listed vertex id is below the order. |
| Graphs.Numbering | src/main/java/edu/ucla/sspace/graph/Graphs.java:103-106 | Maps the k-th listed vertex to k; the map is a bijection from the listed vertices onto `0 .. n-1`. |
| Graphs.VertexRange | src/main/java/edu/ucla/sspace/graph/Graphs.java:108-110 | A new graph with exactly the vertices `0 .. order-1` and no edges. |
| Graphs.CopyRelabelled | src/main/java/edu/ucla/sspace/graph/Graphs.java:111-112 | After adding every listed edge cloned onto the translated endpoints, the copy's edges are exactly the relabelled list and its vertices are still `0 .. order-1`. |
| PackSpec.ContiguousIff | src/main/java/edu/ucla/sspace/graph/Graphs.java:92-100 | All ids are below the vertex count if and only if the vertex set is exactly `0 .. count-1`, which is why the input may be returned as it is. |
| PackSpec.RelabelKeepsSize | src/main/java/edu/ucla/sspace/graph/Graphs.java:111-112 | Relabelling the stored edges through an injective map keeps their number, so the copy has as many edges as the input. |
| PackSpec.RelabelInjective | src/main/java/edu/ucla/sspace/graph/Graphs.java:112 | Under an injective relabelling, two relabelled edges are equal if and only if the originals are. |
| PackSpec.IdentityRelabel | src/main/java/edu/ucla/sspace/graph/Graphs.java:99-100 | Relabelling through the identity leaves the edge set unchanged, so returning the input is the relabelled graph. |
| Graphs.ShufflePreserve | src/main/java/edu/ucla/sspace/graph/Graphs.java:128-171 | Fails with `IllegalArgument("must shuffle at least once")` exactly when `shufflesPerEdge < 1`, and then leaves the graph unchanged. Otherwise it keeps the vertices, the edge count and every vertex's degree, plus the in- and out-degrees when all edges are directed (with the corrected acceptance test, see Findings). It creates no new self-loop and no new edge kind. With fewer than two edges it returns 0 and changes nothing. At most two new edges appear per counted swap. The result is at most `shufflesPerEdge * g.size()`, the maximum the Javadoc gives at lines 128-132. The result is exactly the number of swaps made (the Javadoc's return value): by `ShuffleRun`, running the recorded attempts `choices` from the starting edges ends in the final edges and commits exactly `r.value` swaps. The attempts are an order of the edges and, for every slot in turn, `shufflesPerEdge` attempts against other slots. |
| Graphs.ShuffleInternal | src/main/java/edu/ucla/sspace/graph/Graphs.java:178-246 | Edges outside the scope are untouched. The scoped edges are replaced by a set `scope'` that is disjoint from the unscoped edges `old(g.edges) - scope`, has the same size and the same degree at every vertex (in- and out-degree too when all scoped edges are directed), and has no kinds the scope lacked. The graph size is constant (with the corrected acceptance test, see Findings). Self-loops are never created. With fewer than two scoped edges it returns 0 and changes nothing. At most `shufflesPerEdge` swaps are counted per scoped edge, and at most two new edges appear per swap. By `ShuffleRun`, the final edges and the result are those of running the recorded attempts `choices`: the array order of the scope, then `shufflesPerEdge` attempts for each slot in turn. The result counts exactly the attempts that committed. |
| Graphs.ShuffleSlots | src/main/java/edu/ucla/sspace/graph/Graphs.java:196-244 | The outer loop over slots keeps the shuffle invariant `ShuffleInv` and the graph size, and bounds the new edges by twice the swap count. It records one round of attempts per slot, and the rounds form a `Schedule`: slot `k` makes `shufflesPerEdge` attempts, each against another slot. Running the rounds from the entry state (`RunAll`) gives exactly the final edges, the final array and the returned count. The count is therefore at most `shufflesPerEdge` times the number of slots. |
| Graphs.ShuffleSlot | src/main/java/edu/ucla/sspace/graph/Graphs.java:198-243 | The `shufflesPerEdge` attempts for one slot keep `ShuffleInv`. The recorded attempts form a `Round` of slot `i`. Running them (`Run`) from the entry state, counting from `total`, gives exactly the new edges, the new array and the new count `total'`, so the count grows by the committed attempts: at least 0 and at most `shufflesPerEdge`. |
| Graphs.TrySwap | src/main/java/edu/ucla/sspace/graph/Graphs.java:199-242 | One attempt picks a partner slot `j` other than `i` and two flip coins. It commits exactly when the candidates of `Candidates` pass the acceptance test `Accepts` on the edges it started from. A commit replaces the two old edges by the candidates, in the graph (`Commit`) and in slots `i` and `j`. A rejected attempt changes neither the graph nor the array. Either way `ShuffleInv` and the graph size are kept, and the attempt is one `Step` of the run: from the entry state with `total` commits, to the new state with `total + 1` commits after a commit and `total` after a rejection. |
| Graphs.SwapWith | src/main/java/edu/ucla/sspace/graph/Graphs.java:204-242 | The same contract for a given partner `j` and given coins: it flips, exchanges the heads, and commits exactly when `Accepts` holds. Its effect is `Commit` and the two slot updates, or nothing, and it is one `Step`. |
| Graphs.CommitSwap | src/main/java/edu/ucla/sspace/graph/Graphs.java:227-242 | An accepted swap removes the two old edges and adds the two candidates (`Commit`), puts the candidates in slots `i` and `j`, and keeps `ShuffleInv` and the graph size; this is the assertion at line 241. It is the committing `Step`, counting one more swap. |
| Graphs.ReplaceSlots | src/main/java/edu/ucla/sspace/graph/Graphs.java:229-240 | The graph's edges become the old edges minus the two removed plus the two candidates, and the two array slots hold the candidates. |
| Graphs.ToArray | src/main/java/edu/ucla/sspace/graph/Graphs.java:191-194 | A fresh array holding the listed scope edges in order. |
| SwapSpec.CandidatesKeepEndpoints | src/main/java/edu/ucla/sspace/graph/Graphs.java:207-217 | Each candidate keeps its original's kind. At every vertex the two candidates together occupy as many endpoint slots as the two originals. For directed edges the tails stay and the heads are exchanged. |
| SwapSpec.CommitKeepsDegrees | src/main/java/edu/ucla/sspace/graph/Graphs.java:215-235 | An accepted swap on two distinct edges keeps every vertex's degree, and in- and out-degree for directed edges. |
| SwapSpec.CommitKeepsSize | src/main/java/edu/ucla/sspace/graph/Graphs.java:229-242 | Under the corrected acceptance test, a committed swap keeps the number of edges. |
| SwapSpec.AsWrittenGapIsTwoSelfLoops | src/main/java/edu/ucla/sspace/graph/Graphs.java:219-226 | The only attempts that the source's test accepts and the corrected test rejects pair two undirected self-loops. |
| SwapSpec.AsWrittenLosesAnEdge | src/main/java/edu/ucla/sspace/graph/Graphs.java:219-242 | With the source's test, the self-loops (0,0) and (1,1) pass every check, and committing them leaves one edge instead of two. |
| SwapSpec.CommitKeepsSynced | src/main/java/edu/ucla/sspace/graph/Graphs.java:230-240 | After a commit, the graph's edges are still the unscoped edges plus exactly those the array lists, disjointly, and the array still lists distinct edges. |
| SwapSpec.AttemptKeepsInv | src/main/java/edu/ucla/sspace/graph/Graphs.java:199-240 | An accepted attempt on two slots preserves `ShuffleInv`: the sync with the graph, the degrees of the scope, and each slot's kind and self-loop history. |
| SwapSpec.ShuffleStarts | src/main/java/edu/ucla/sspace/graph/Graphs.java:187-194 | The freshly copied array establishes `ShuffleInv`. |
| SwapSpec.ShuffleEnds | src/main/java/edu/ucla/sspace/graph/Graphs.java:196-246 | At the end, the graph's edges are the unscoped edges plus the listed ones, disjointly, with the scope's size and kinds and no new self-loop. |
| SwapSpec.ElementsUpdate | src/main/java/edu/ucla/sspace/graph/Graphs.java:239-240 | Overwriting a slot with an edge that no other slot holds swaps exactly one listed edge for another and keeps the slots distinct. |
| SwapSpec.StepCommits | src/main/java/edu/ucla/sspace/graph/Graphs.java:227-240 | An attempt whose candidates pass `Accepts` steps to the committed edges, the two updated slots and one more commit. |
| SwapSpec.StepRejects | src/main/java/edu/ucla/sspace/graph/Graphs.java:219-226 | An attempt whose candidates fail `Accepts` leaves the state, and the count, as they were. |
| SwapSpec.RunCommits | src/main/java/edu/ucla/sspace/graph/Graphs.java:198-227 | A run of attempts commits at least none and at most one swap per attempt. |
| SwapSpec.RunAllCommits | src/main/java/edu/ucla/sspace/graph/Graphs.java:196-227 | Rounds of `n` attempts each commit at most `n` swaps per round in total, which bounds the count by `shufflesPerEdge` per edge. |
| SwapSpec.CommitBoundsChange | src/main/java/edu/ucla/sspace/graph/Graphs.java:227-240 | A commit adds at most two edges outside the scope. |
| Graphs.ShufflePreserveType | src/main/java/edu/ucla/sspace/graph/Graphs.java:265-335 | Fails with `IllegalArgument` exactly when `shufflesPerEdge < 1` (without changing the graph). Otherwise it visits each edge type present on entry once. For every type it keeps the edge count and every vertex's degree within that type (in- and out-degree for all-directed types). It keeps the plain degrees, the order and the size (the assertions at 332-333, with the corrected acceptance test, see Findings). The result is the sum of the per-type counts; each count is at most `shufflesPerEdge` per edge of its type, so the result is at most `shufflesPerEdge * g.size()` (the Javadoc at lines 265-269). The shuffle of the `k`-th type goes from the edges `stages[k]` to `stages[k + 1]`, from the entry edges to the final ones. By `ShuffleRun` it is the run of the recorded attempts `choices[k]` over that type's edges, and `counts[k]` is exactly its number of committed swaps. |
| Graphs.ShuffleTypes | src/main/java/edu/ucla/sspace/graph/Graphs.java:323-330 | The loop over the snapshot of types keeps the per-type invariant relative to the entry edges. It returns the sum of the per-type counts, each at most `shufflesPerEdge` per edge of its type. It records the stages and the runs that link them, one per type, with each count equal to its run's commits. |
| Graphs.ShuffleType | src/main/java/edu/ucla/sspace/graph/Graphs.java:323-330 | Shuffling the edges of one type keeps the per-type invariant relative to the starting edges and leaves the edges of every other type as they were. It counts at most `shufflesPerEdge` swaps per edge of the type, and at most two new edges of the type appear per swap. By `ShuffleRun` over the edges of type `t`, the final edges and the count are those of running the recorded attempts, and the count is exactly the committed swaps. |
| TypeSpec.TypeReplaced | src/main/java/edu/ucla/sspace/graph/Graphs.java:323-330 | After the edges of type `t` are replaced by a set of the same kinds, the edges of type `t` are that set and the edges of every other type are unchanged. |
| TypeSpec.SumBound | src/main/java/edu/ucla/sspace/graph/Graphs.java:323-327 | Per-type counts of at most `n` per edge of distinct types add up to at most `n` per edge of those types together. |
| TypeSpec.SumWithinSize | src/main/java/edu/ucla/sspace/graph/Graphs.java:265-269 | The same counts add up to at most `n` per edge of the whole graph: the bound the Javadoc states for `shufflePreserveType`. |
| TypeSpec.TypeStep | src/main/java/edu/ucla/sspace/graph/Graphs.java:323-333 | Replacing the edges of one type by a same-size, same-degree set of the same kinds keeps the whole edge count, the degrees and every type's counts and degrees. |
| TypeSpec.TypesStep | src/main/java/edu/ucla/sspace/graph/Graphs.java:323-327 | The per-type part of that step: the shuffled type gets its counts back and every other type is untouched. |
| Graphs.ToLineGraphFresh | src/main/java/edu/ucla/sspace/graph/Graphs.java:353-356 | With a new indexer, every edge gets an id below the edge count, distinct edges get distinct ids, and the result is exactly the line graph under those ids. |
| Graphs.ToLineGraph | src/main/java/edu/ucla/sspace/graph/Graphs.java:369-390 | The indexer keeps every id it had and gains ids for exactly the graph's edges. The result's edges are exactly `LineEdges`: one undirected, untyped edge between the ids of every two distinct edges that share an endpoint, with no self-loop. Its vertices are the endpoints of those edges. |
| Graphs.VisitAll | src/main/java/edu/ucla/sspace/graph/Graphs.java:372-388 | After the visited vertices, every two distinct edges that meet at one of them are linked, and every edge touching one of them has an id. |
| Graphs.Visit | src/main/java/edu/ucla/sspace/graph/Graphs.java:374-387 | Visiting one more vertex indexes its edges and links every two of them. |
| Graphs.LinkAround | src/main/java/edu/ucla/sspace/graph/Graphs.java:378-387 | Over one adjacency list, every listed edge gets an id, and every two distinct listed edges are linked in one orientation or the other. |
| Graphs.LinkEdge | src/main/java/edu/ucla/sspace/graph/Graphs.java:378-386 | Indexing edge `p` and linking it to the edges listed before it adds exactly that row of pairs and that one id. |
| Graphs.LinkRow | src/main/java/edu/ucla/sspace/graph/Graphs.java:380-385 | The inner loop stops exactly at edge `p` itself. It adds exactly the links from edge `p` to each earlier edge, and their ids, and assigns no new ids. |
| Graphs.LinkPair | src/main/java/edu/ucla/sspace/graph/Graphs.java:383-384 | One `add` puts in the link between edge `p` and edge `q`, and its two ids. |
| GraphModel.Indexer.Index | src/main/java/edu/ucla/sspace/graph/Graphs.java:379-384 | Returns the id of the edge. An edge seen before keeps its id; a new edge gets the next unused id. Ids are never reassigned. |
| LineSpec.LinksCover | src/main/java/edu/ucla/sspace/graph/Graphs.java:369-390 | Linking a set of good pairs that covers every two meeting edges gives exactly the line graph `LineEdges`. |
| LineSpec.VisitedAll | src/main/java/edu/ucla/sspace/graph/Graphs.java:372-388 | Once every vertex is visited, every edge has been reached and the links made are exactly the line graph. |
| LineSpec.BelowCovers | src/main/java/edu/ucla/sspace/graph/Graphs.java:378-385 | Pairing each listed edge with those listed before it covers every two distinct listed edges, each pair being good. |
| LineSpec.NoEarlierSame | src/main/java/edu/ucla/sspace/graph/Graphs.java:380-382 | In a list of distinct stored edges, no edge before position `p` equals edge `p`, so the `break` fires exactly at `p`. |
| LineSpec.RowState | src/main/java/edu/ucla/sspace/graph/Graphs.java:380-385 | Adding a row's links and ids to the graph built so far gives the graph of the linked pairs plus that row. |
| LineSpec.LineEdgesSimple | src/main/java/edu/ucla/sspace/graph/Graphs.java:383-384 | With injective ids, no line-graph edge is a self-loop, and all are undirected and untyped. |
| LineSpec.LineVertices | src/main/java/edu/ucla/sspace/graph/Graphs.java:383-384 | The line graph's vertices are exactly the ids of the edges that meet some other edge. |
| Graphs.ToAdjacencyMatrixString | src/main/java/edu/ucla/sspace/graph/Graphs.java:396-409 | The text is `Matrix` over the vertices in iteration order, which lists each vertex once. Its length is `order * (order + 1)`. |
| Graphs.MatrixLine | src/main/java/edu/ucla/sspace/graph/Graphs.java:399-405 | The inner loop produces one entry per listed vertex, in order, each '1' or '0' by whether the directed edge from the line's vertex is in the graph (`MatrixRow`, whose entries `RowCells` states). |
| MatrixSpec.RowCells | src/main/java/edu/ucla/sspace/graph/Graphs.java:399-405 | A line has one entry per vertex, and the c-th is '1' exactly when the edge to the c-th vertex is stored, '0' otherwise. |
| MatrixSpec.MatrixCell | src/main/java/edu/ucla/sspace/graph/Graphs.java:398-406 | The character at `r * (n + 1) + c` is '1' if and only if the graph holds the directed, untyped edge from the r-th to the c-th vertex, and '0' if and only if it does not. |
| MatrixSpec.MatrixNewline | src/main/java/edu/ucla/sspace/graph/Graphs.java:407 | Each line ends in a newline at `r * (n + 1) + n`. |
| MatrixSpec.MatrixLength | src/main/java/edu/ucla/sspace/graph/Graphs.java:397 | The text has exactly the `order * (order + 1)` characters the builder is sized for. |

## Left out

- The Java overloads that take a `Random` and those that create one are modelled by a single method each, because randomness is nondeterministic choice. No distribution is modelled: the contracts hold for every sequence of random outcomes.
- `asDirectedGraph`, `asMultigraph`, `asWeightedGraph`, `synchronizedGraph` and `unmodifiable` (lines 414-416) are left out. They are type adaptors or throw `Error`, and they hold no logic of the utilities modelled here.
- The class Javadoc (lines 51-52) says that every method throws `NullPointerException` when given a null graph. Dafny's `Graph` type has no null value, so that case does not arise in the model.
- The graph implementations (`Graph`, `Multigraph`, `SparseUndirectedGraph`, `HashIndexer`, the edge classes) are not part of this model. They are modelled by the contracts in `graph.dfy` and `edges.dfy`:
  - a graph stores one representative per equality class of edges;
  - `add` adds the endpoints as vertices;
  - `remove` leaves the vertices;
  - `contains` compares by edge equality.
- `toAdjacencyMatrixString` looks up a directed, untyped probe edge by that same edge equality. An implementation whose `contains` matches a directed probe against an undirected stored edge would print '1' where this model prints '0'.
- The reflective creation of the edge array (lines 191-194) is a fresh array of the same edges in iteration order. Reflection and the generic element type are not modelled.
- The `verbose` logging call in `shufflePreserveType` is left out, because it is output only.
- Java `int` arithmetic is not bounded. Vertex ids, counts and ids are unbounded naturals, so an overflow of `totalShuffles` or of `order * (order + 1)` is not modelled.
- Graphs.TrySwap: models the corrected acceptance test, not lines 221-226 as written. It also rejects an attempt whose two candidates are equal (`Accepts` in `swap.dfy`). On two undirected self-loops the code as written commits and loses an edge (see Findings and `SwapSpec.AsWrittenLosesAnEdge`). The constant size and degrees stated for `ShuffleInternal`, `ShufflePreserve` and `ShufflePreserveType` hold for the corrected test only.
- `toAdjacencyMatrixString` iterates `g.vertices()` afresh for each loop (lines 398-399), and `toLineGraph` iterates each adjacency list afresh for both loops (lines 378 and 380). The model enumerates each collection once and reuses that order. This assumes that iterating an unmodified set twice yields the same order.
- GraphModel.Indexer: the indexer keeps a ghost reverse map from ids to edges, used only to prove that ids are injective. The indexer's own storage is not modelled.
- Graphs.ToLineGraph: the line graph's vertex set is the endpoints of its edges, as the code builds it through `add(edge)`. An edge that shares no endpoint with another edge gets an id but no vertex. A description of `toLineGraph` that maps every edge to a vertex does not match this code.

## Findings

| source | as written | input that shows it | evidently intended | confidence | as-written member | corrected member |
|---|---|---|---|---|---|---|
| src/main/java/edu/ucla/sspace/graph/Graphs.java:221-242 | An attempt is rejected only when a candidate already exists or is a self-loop. The two candidates may be one and the same undirected edge, and then the second `add` does nothing. | An undirected graph whose edges are the self-loops (0,0) and (1,1), without flips. The candidates (0,1) and (1,0) are equal and pass every check. The graph ends with one edge, vertex 0 loses a degree, and the assertion at line 241 fails. | Also reject the attempt when the two candidates are equal, so every committed swap keeps the edge count and the degrees. | not executed | SwapSpec.AsWrittenLosesAnEdge | SwapSpec.CommitKeepsSize |
