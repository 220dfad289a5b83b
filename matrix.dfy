/**
 * The text form of a graph's adjacency matrix: one line per vertex in
 * iteration order, holding a '1' for every vertex it has a directed, untyped
 * edge to and a '0' for every other vertex, in the same order.
 */
module MatrixSpec {
  import opened Edges

  /** The directed, untyped probe edge `SimpleDirectedEdge(from, to)`. */
  function Probe(from: Vertex, to: Vertex): Edge
  {
    Edge(from, to, true, Untyped)
  }

  /** One matrix entry: whether an edge equal to the probe is stored in `E`. */
  ghost function Cell(E: set<Edge>, from: Vertex, to: Vertex): char
  {
    if Canon(Probe(from, to)) in E then '1' else '0'
  }

  /** The entries of the line of `from`, one per vertex of `cols`. */
  ghost function MatrixRow(E: set<Edge>, from: Vertex, cols: seq<Vertex>): string
  {
    if cols == [] then [] else MatrixRow(E, from, cols[..|cols| - 1]) + [Cell(E, from, cols[|cols| - 1])]
  }

  /** The lines of the vertices `rows`, each ended by a newline. */
  ghost function Matrix(E: set<Edge>, rows: seq<Vertex>, cols: seq<Vertex>): string
  {
    if rows == [] then [] else Matrix(E, rows[..|rows| - 1], cols) + MatrixRow(E, rows[|rows| - 1], cols) + ['\n']
  }

  /** A line has one entry per column, the `c`-th for the `c`-th column. */
  lemma {:induction false} RowCells(E: set<Edge>, from: Vertex, cols: seq<Vertex>, c: nat)
    requires c < |cols|
    ensures |MatrixRow(E, from, cols)| == |cols|
    ensures MatrixRow(E, from, cols)[c] == (if Canon(Probe(from, cols[c])) in E then '1' else '0')
  {
    var init := cols[..|cols| - 1];
    if c < |cols| - 1 {
      RowCells(E, from, init, c);
    } else if init != [] {
      RowCells(E, from, init, 0);
    }
  }

  lemma RowLength(E: set<Edge>, from: Vertex, cols: seq<Vertex>)
    ensures |MatrixRow(E, from, cols)| == |cols|
  {
    if cols != [] {
      RowCells(E, from, cols, 0);
    }
  }

  /** The text is `|rows| * (|cols| + 1)` characters long, the capacity the builder is given. */
  lemma {:induction false} MatrixLength(E: set<Edge>, rows: seq<Vertex>, cols: seq<Vertex>)
    ensures |Matrix(E, rows, cols)| == |rows| * (|cols| + 1)
  {
    if rows != [] {
      MatrixLength(E, rows[..|rows| - 1], cols);
      RowLength(E, rows[|rows| - 1], cols);
      assert |rows| * (|cols| + 1) == (|rows| - 1) * (|cols| + 1) + |cols| + 1;
    }
  }

  /**
   * Line `r` of the text starts at `r * (|cols| + 1)`: its `c`-th character is
   * '1' exactly when the edge from the `r`-th to the `c`-th vertex is stored,
   * and '0' otherwise.
   */
  lemma {:induction false} MatrixCell(E: set<Edge>, rows: seq<Vertex>, cols: seq<Vertex>, r: nat, c: nat)
    requires r < |rows| && c < |cols|
    ensures r * (|cols| + 1) + c < |Matrix(E, rows, cols)|
    ensures Matrix(E, rows, cols)[r * (|cols| + 1) + c] == '1' <==> Canon(Probe(rows[r], cols[c])) in E
    ensures Matrix(E, rows, cols)[r * (|cols| + 1) + c] == '0' <==> Canon(Probe(rows[r], cols[c])) !in E
  {
    var init := rows[..|rows| - 1];
    MatrixLength(E, init, cols);
    MatrixLength(E, rows, cols);
    RowCells(E, rows[|rows| - 1], cols, c);
    if r < |rows| - 1 {
      MulBelow(r, |rows| - 1, |cols| + 1);
      MatrixCell(E, init, cols, r, c);
      assert init[r] == rows[r];
    }
  }

  /** Line `r` of the text ends in a newline at `r * (|cols| + 1) + |cols|`. */
  lemma {:induction false} MatrixNewline(E: set<Edge>, rows: seq<Vertex>, cols: seq<Vertex>, r: nat)
    requires r < |rows|
    ensures r * (|cols| + 1) + |cols| < |Matrix(E, rows, cols)|
    ensures Matrix(E, rows, cols)[r * (|cols| + 1) + |cols|] == '\n'
  {
    var init := rows[..|rows| - 1];
    MatrixLength(E, init, cols);
    MatrixLength(E, rows, cols);
    RowLength(E, rows[|rows| - 1], cols);
    if r < |rows| - 1 {
      MulBelow(r, |rows| - 1, |cols| + 1);
      MatrixNewline(E, init, cols, r);
    }
  }

  /** A whole line before line `b` ends before line `b` starts. */
  lemma {:induction false} MulBelow(a: nat, b: nat, k: nat)
    requires a < b
    ensures a * k + k <= b * k
  {
    assert b * k == (b - 1) * k + k;
    if a < b - 1 {
      MulBelow(a, b - 1, k);
    }
  }
}
