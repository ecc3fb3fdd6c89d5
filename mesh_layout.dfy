// The layout of the ocean grid's two buffers, stated without loops: what
// float sits at each slot of the interleaved vertex buffer, what vertex
// number sits at each slot of the triangle index buffer, and the facts a
// renderer relies on (bounds, adjacency, shared diagonals, coverage).
//
// A grid of size n has (n + 1) * (n + 1) vertices numbered row-major:
// vertex (x, z) is number z * (n + 1) + x, x the column and z the row.

module MeshLayout {
  import opened GridArith

  /** One float of the vertex buffer. The x and z positions are kept as the
      integer grid coordinate they are computed from; y and the normal are the
      exact constants 0.0 and 1.0. */
  datatype VertexFloat = XPos(col: nat) | ZPos(row: nat) | Zero | One

  /** The grid size hard-coded in the program. */
  const SourceGridSize: nat := 100

  /** Floats per vertex: three of position, three of normal (the attribute stride). */
  const FloatsPerVertex: nat := 6

  /** Indices per cell: two triangles of three. */
  const IndicesPerCell: nat := 6

  function VertexCount(n: nat): (r: nat)
  {
    (n + 1) * (n + 1)
  }

  function CellCount(n: nat): (r: nat)
  {
    n * n
  }

  /** Row-major number of grid point (x, z). */
  function VertexId(n: nat, x: nat, z: nat): (r: nat)
  {
    z * (n + 1) + x
  }

  /** Row-major number of cell (x, z). */
  function CellId(n: nat, x: nat, z: nat): (r: nat)
  {
    z * n + x
  }

  function ColumnOf(n: nat, v: nat): (r: nat)
  {
    v % (n + 1)
  }

  function RowOf(n: nat, v: nat): (r: nat)
  {
    v / (n + 1)
  }

  /** The six floats written for grid point (x, z): position, then the up normal. */
  function VertexFloats(x: nat, z: nat): (r: seq<VertexFloat>)
  {
    [XPos(x), Zero, ZPos(z), Zero, One, Zero]
  }

  predicate Distinct3(t: seq<nat>)
    requires |t| == 3
  {
    t[0] != t[1] && t[1] != t[2] && t[0] != t[2]
  }

  /** The six indices written for cell (x, z): the triangles
      (start, start + 1, start + n + 1) and (start + 1, start + n + 2, start + n + 1). */
  function CellIndices(n: nat, x: nat, z: nat): (r: seq<nat>)
    requires n >= 1
    ensures |r| == IndicesPerCell
    ensures Distinct3(r[..3]) && Distinct3(r[3..])
    // the triangles share exactly the diagonal r[1]-r[2] (r[3] and r[5] in the second)
    ensures r[3] == r[1] && r[5] == r[2]
    ensures r[0] != r[4] && r[0] != r[3] && r[0] != r[5] && r[4] != r[1] && r[4] != r[2]
    ensures x < n && z < n ==> forall j :: 0 <= j < |r| ==> r[j] < VertexCount(n)
  {
    var start := VertexId(n, x, z);
    assert x < n && z < n ==> start + n + 2 < VertexCount(n) by {
      if x < n && z < n { CellBelowLastVertex(n, x, z); }
    }
    [start, start + 1, start + n + 1, start + 1, start + n + 2, start + n + 1]
  }

  lemma CellBelowLastVertex(n: nat, x: nat, z: nat)
    requires x < n && z < n
    ensures VertexId(n, x, z) + n + 2 < VertexCount(n)
  {
    MulMonotone(z, n - 1, n + 1);
    assert (n - 1) * (n + 1) == n * n - 1;
    assert (n + 1) * (n + 1) == n * n + 2 * n + 1;
  }

  /** Reference definition of the vertex buffer, slot by slot: slot i belongs to
      vertex i / 6, whose column and row are recovered from its number. */
  function SlotAt(n: nat, i: nat): (r: VertexFloat)
  {
    var k := i / FloatsPerVertex;
    VertexFloats(ColumnOf(n, k), RowOf(n, k))[i % FloatsPerVertex]
  }

  /** Reference definition of the index buffer, slot by slot: slot i belongs to
      cell i / 6, whose column and row are recovered from its number. */
  function IndexAt(n: nat, i: nat): (r: nat)
    requires n >= 1
  {
    var c := i / IndicesPerCell;
    CellIndices(n, c % n, c / n)[i % IndicesPerCell]
  }

  function VertexBuffer(n: nat): (r: seq<VertexFloat>)
  {
    seq(FloatsPerVertex * VertexCount(n), i requires 0 <= i => SlotAt(n, i))
  }

  function IndexBuffer(n: nat): (r: seq<nat>)
    requires n >= 1
  {
    seq(IndicesPerCell * CellCount(n), i requires 0 <= i => IndexAt(n, i))
  }

  /** A window of a sequence that agrees with t element by element is t. */
  lemma SliceEquals<T>(s: seq<T>, lo: nat, t: seq<T>)
    requires lo + |t| <= |s|
    requires forall j :: 0 <= j < |t| ==> s[lo + j] == t[j]
    ensures s[lo .. lo + |t|] == t
  {
  }

  // ---------------------------------------------------------------------
  // Vertex numbering

  /** Grid point (x, z) gets a number below the vertex count, and its column
      and row are recovered from that number. */
  lemma VertexIdRoundTrip(n: nat, x: nat, z: nat)
    requires x <= n && z <= n
    ensures VertexId(n, x, z) < VertexCount(n)
    ensures ColumnOf(n, VertexId(n, x, z)) == x && RowOf(n, VertexId(n, x, z)) == z
  {
    DivModOf(z, x, n + 1);
    MulMonotone(z, n, n + 1);
  }

  /** Every vertex number below the count is the number of exactly one grid
      point: the one given by its column and row. */
  lemma VertexDecodeRoundTrip(n: nat, v: nat)
    requires v < VertexCount(n)
    ensures ColumnOf(n, v) <= n && RowOf(n, v) <= n
    ensures VertexId(n, ColumnOf(n, v), RowOf(n, v)) == v
    ensures forall x: nat, z: nat :: x <= n && z <= n && VertexId(n, x, z) == v ==>
      x == ColumnOf(n, v) && z == RowOf(n, v)
  {
    RowBound(v, n + 1, n + 1);
    forall x: nat, z: nat | x <= n && z <= n && VertexId(n, x, z) == v
      ensures x == ColumnOf(n, v) && z == RowOf(n, v)
    {
      VertexIdRoundTrip(n, x, z);
    }
  }

  /** Cell (x, z) gets a number below the cell count, and its column and row
      are recovered from that number. */
  lemma CellIdRoundTrip(n: nat, x: nat, z: nat)
    requires x < n && z < n
    ensures CellId(n, x, z) < CellCount(n)
    ensures CellId(n, x, z) % n == x && CellId(n, x, z) / n == z
  {
    DivModOf(z, x, n);
    MulMonotone(z, n - 1, n);
  }

  // ---------------------------------------------------------------------
  // Vertex buffer

  /** Position attribute of vertex k: floats 6k .. 6k+2 (attribute 0, offset 0). */
  function PositionAttr(buf: seq<VertexFloat>, k: nat): (r: seq<VertexFloat>)
    requires FloatsPerVertex * k + FloatsPerVertex <= |buf|
  {
    buf[FloatsPerVertex * k .. FloatsPerVertex * k + 3]
  }

  /** Normal attribute of vertex k: floats 6k+3 .. 6k+5 (attribute 1, offset 3). */
  function NormalAttr(buf: seq<VertexFloat>, k: nat): (r: seq<VertexFloat>)
    requires FloatsPerVertex * k + FloatsPerVertex <= |buf|
  {
    buf[FloatsPerVertex * k + 3 .. FloatsPerVertex * k + FloatsPerVertex]
  }

  lemma VertexSlotOf(n: nat, k: nat, j: nat)
    requires j < FloatsPerVertex
    ensures SlotAt(n, FloatsPerVertex * k + j) == VertexFloats(ColumnOf(n, k), RowOf(n, k))[j]
  {
  }

  /** Vertex k of the buffer fits inside it and reads back as the grid point of
      its column and row with y 0.0 and the normal (0, 1, 0). */
  lemma VertexAttributes(n: nat, k: nat)
    requires k < VertexCount(n)
    ensures FloatsPerVertex * k + FloatsPerVertex <= |VertexBuffer(n)|
    ensures PositionAttr(VertexBuffer(n), k) == [XPos(ColumnOf(n, k)), Zero, ZPos(RowOf(n, k))]
    ensures NormalAttr(VertexBuffer(n), k) == [Zero, One, Zero]
  {
  }

  /** Grid point (x, z) occupies slots 6 * (z * (n + 1) + x) .. + 5, in row-major order. */
  lemma VertexPlacement(n: nat, x: nat, z: nat)
    requires x <= n && z <= n
    ensures FloatsPerVertex * VertexId(n, x, z) + FloatsPerVertex <= |VertexBuffer(n)|
    ensures VertexBuffer(n)[FloatsPerVertex * VertexId(n, x, z) .. FloatsPerVertex * VertexId(n, x, z) + FloatsPerVertex]
         == VertexFloats(x, z)
  {
    var k := VertexId(n, x, z);
    VertexIdRoundTrip(n, x, z);
    VertexAttributes(n, k);
    var buf := VertexBuffer(n);
    assert buf[FloatsPerVertex * k .. FloatsPerVertex * k + FloatsPerVertex]
        == PositionAttr(buf, k) + NormalAttr(buf, k);
  }

  // ---------------------------------------------------------------------
  // Index buffer

  /** Cells are emitted row-major: the six entries at offset 6 * (z * n + x)
      are those of cell (x, z). */
  lemma IndexAtCell(n: nat, x: nat, z: nat, j: nat)
    requires n >= 1 && x < n && z < n && j < IndicesPerCell
    ensures IndexAt(n, IndicesPerCell * CellId(n, x, z) + j) == CellIndices(n, x, z)[j]
  {
    DivModOf(CellId(n, x, z), j, IndicesPerCell);
    CellIdRoundTrip(n, x, z);
  }

  /** The six entries of cell c: two triangles of three. */
  function CellEntries(buf: seq<nat>, c: nat): (r: seq<nat>)
    requires IndicesPerCell * c + IndicesPerCell <= |buf|
  {
    buf[IndicesPerCell * c .. IndicesPerCell * c + IndicesPerCell]
  }

  lemma IndexPlacement(n: nat, x: nat, z: nat)
    requires n >= 1 && x < n && z < n
    ensures IndicesPerCell * CellId(n, x, z) + IndicesPerCell <= |IndexBuffer(n)|
    ensures CellEntries(IndexBuffer(n), CellId(n, x, z)) == CellIndices(n, x, z)
  {
    CellSlotBound(n, x, z, IndicesPerCell - 1);
    CellWindow(n, x, z);
    SliceEquals(IndexBuffer(n), IndicesPerCell * CellId(n, x, z), CellIndices(n, x, z));
  }

  lemma CellWindow(n: nat, x: nat, z: nat)
    requires n >= 1 && x < n && z < n
    ensures IndicesPerCell * CellId(n, x, z) + IndicesPerCell <= |IndexBuffer(n)|
    ensures forall j :: 0 <= j < IndicesPerCell ==>
      IndexBuffer(n)[IndicesPerCell * CellId(n, x, z) + j] == CellIndices(n, x, z)[j]
  {
    CellSlotBound(n, x, z, IndicesPerCell - 1);
    forall j | 0 <= j < IndicesPerCell
      ensures IndexBuffer(n)[IndicesPerCell * CellId(n, x, z) + j] == CellIndices(n, x, z)[j]
    {
      IndexBufferAtCell(n, x, z, j);
    }
  }

  lemma IndexBufferAtCell(n: nat, x: nat, z: nat, j: nat)
    requires n >= 1 && x < n && z < n && j < IndicesPerCell
    ensures IndicesPerCell * CellId(n, x, z) + j < |IndexBuffer(n)|
    ensures IndexBuffer(n)[IndicesPerCell * CellId(n, x, z) + j] == CellIndices(n, x, z)[j]
  {
    CellSlotBound(n, x, z, j);
    IndexAtCell(n, x, z, j);
  }

  lemma CellSlotBound(n: nat, x: nat, z: nat, j: nat)
    requires x < n && z < n && j < IndicesPerCell
    ensures IndicesPerCell * CellId(n, x, z) + j < IndicesPerCell * CellCount(n)
  {
    CellIdRoundTrip(n, x, z);
    MulMonotone(CellId(n, x, z) + 1, CellCount(n), IndicesPerCell);
  }

  /** The point below (x, z) is n + 1 numbers further on. */
  lemma NextRow(n: nat, x: nat, z: nat)
    ensures VertexId(n, x, z + 1) == VertexId(n, x, z) + n + 1
  {
  }

  /** Every entry of the index buffer names an existing vertex. */
  lemma IndexInBounds(n: nat, i: nat)
    requires n >= 1 && i < IndicesPerCell * CellCount(n)
    ensures IndexAt(n, i) < VertexCount(n)
  {
    var c := i / IndicesPerCell;
    RowBound(i, IndicesPerCell, CellCount(n));
    RowBound(c, n, n);
  }

  /** Grid coordinate (column, row) of vertex v. */
  function Corner(n: nat, v: nat): (r: (nat, nat))
  {
    (ColumnOf(n, v), RowOf(n, v))
  }

  /** No triangle wraps across a row: the entries of cell (x, z) are its
      corners (x, z), (x+1, z), (x, z+1) and (x+1, z), (x+1, z+1), (x, z+1). */
  lemma CellCorners(n: nat, x: nat, z: nat)
    requires n >= 1 && x < n && z < n
    ensures var r := CellIndices(n, x, z);
      Corner(n, r[0]) == (x, z) && Corner(n, r[1]) == (x + 1, z) && Corner(n, r[2]) == (x, z + 1) &&
      Corner(n, r[3]) == (x + 1, z) && Corner(n, r[4]) == (x + 1, z + 1) && Corner(n, r[5]) == (x, z + 1)
  {
    var r := CellIndices(n, x, z);
    NextRow(n, x, z);
    NextRow(n, x + 1, z);
    VertexIdRoundTrip(n, x, z);
    VertexIdRoundTrip(n, x + 1, z);
    VertexIdRoundTrip(n, x, z + 1);
    VertexIdRoundTrip(n, x + 1, z + 1);
  }

  /** Twice the signed area of triangle (a, b, c) in grid coordinates. */
  function Cross(a: (int, int), b: (int, int), c: (int, int)): (r: int)
  {
    (b.0 - a.0) * (c.1 - a.1) - (b.1 - a.1) * (c.0 - a.0)
  }

  /** Both triangles of every cell have the same winding and each covers half of
      the unit cell, so together they tile it. */
  lemma CellWinding(n: nat, x: nat, z: nat)
    requires n >= 1 && x < n && z < n
    ensures var r := CellIndices(n, x, z);
      Cross(Corner(n, r[0]), Corner(n, r[1]), Corner(n, r[2])) == 1 &&
      Cross(Corner(n, r[3]), Corner(n, r[4]), Corner(n, r[5])) == 1
  {
    CellCorners(n, x, z);
  }

  /** Every vertex of the grid is a corner of some drawn triangle. */
  lemma EveryVertexReferenced(n: nat, v: nat)
    requires n >= 1 && v < VertexCount(n)
    ensures exists i :: 0 <= i < IndicesPerCell * CellCount(n) && IndexAt(n, i) == v
  {
    VertexDecodeRoundTrip(n, v);
    var x, z := ColumnOf(n, v), RowOf(n, v);
    // the cell that has v as a corner, and which of its six entries is v
    var cx := if x < n then x else n - 1;
    var cz := if z < n then z else n - 1;
    var j := if x < n && z < n then 0 else if z < n then 1 else if x < n then 2 else 4;
    CellSlotBound(n, cx, cz, j);
    IndexAtCell(n, cx, cz, j);
    if z == n {
      NextRow(n, cx, cz);
    }
    assert IndexAt(n, IndicesPerCell * CellId(n, cx, cz) + j) == v;
  }

  /** What the renderer draws for cell (x, z): the positions of the six
      referenced vertices are the cell's corners, and every normal is up. */
  lemma CellPositions(n: nat, x: nat, z: nat, j: nat)
    requires n >= 1 && x < n && z < n && j < IndicesPerCell
    ensures var v := IndexAt(n, IndicesPerCell * CellId(n, x, z) + j);
      v < VertexCount(n) &&
      PositionAttr(VertexBuffer(n), v) == [XPos(Corner(n, v).0), Zero, ZPos(Corner(n, v).1)] &&
      NormalAttr(VertexBuffer(n), v) == [Zero, One, Zero] &&
      x <= Corner(n, v).0 <= x + 1 && z <= Corner(n, v).1 <= z + 1
  {
    IndexAtCell(n, x, z, j);
    CellCorners(n, x, z);
    var v := CellIndices(n, x, z)[j];
    VertexAttributes(n, v);
  }

  /** The program's own grid: 10201 vertices in 61206 floats, 60000 indices
      for 20000 triangles, every index below 2^31, so neither the `int`
      start value nor the `unsigned int` index overflows. */
  lemma SourceGridSizes()
    ensures |VertexBuffer(SourceGridSize)| == 61206
    ensures |IndexBuffer(SourceGridSize)| == 60000
    ensures forall i :: 0 <= i < |IndexBuffer(SourceGridSize)| ==> IndexBuffer(SourceGridSize)[i] < 0x8000_0000
  {
  }
}
