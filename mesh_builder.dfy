// The mesh construction of the ocean demo, lifted out of `main` into methods
// over the grid size: the two nested loop pairs that fill the vertex buffer
// and the triangle index buffer, each proved to produce the buffer that
// MeshLayout defines slot by slot.

module MeshBuilder {
  import opened GridArith
  import opened MeshLayout

  /** The vertex loop: rows z = 0 ..= n outer, columns x = 0 ..= n inner,
      six floats appended per grid point. */
  method BuildVertices(n: nat) returns (vertices: seq<VertexFloat>)
    requires n >= 1
    ensures vertices == VertexBuffer(n)
  {
    vertices := [];
    var z := 0;
    while z <= n
      invariant z <= n + 1
      invariant |vertices| == FloatsPerVertex * (z * (n + 1))
      invariant forall i :: 0 <= i < |vertices| ==> vertices[i] == SlotAt(n, i)
    {
      var x := 0;
      while x <= n
        invariant x <= n + 1
        invariant |vertices| == FloatsPerVertex * VertexId(n, x, z)
        invariant forall i :: 0 <= i < |vertices| ==> vertices[i] == SlotAt(n, i)
      {
        AppendVertex(n, x, z, vertices);
        vertices := vertices + [XPos(x), Zero, ZPos(z), Zero, One, Zero];
        x := x + 1;
      }
      NextRow(n, 0, z);
      z := z + 1;
    }
  }

  /** One step of the vertex loop: appending the six floats of grid point
      (x, z) to those of the points before it yields the floats up to the next. */
  lemma AppendVertex(n: nat, x: nat, z: nat, vertices: seq<VertexFloat>)
    requires x <= n && z <= n
    requires |vertices| == FloatsPerVertex * VertexId(n, x, z)
    requires forall i :: 0 <= i < |vertices| ==> vertices[i] == SlotAt(n, i)
    ensures |vertices + VertexFloats(x, z)| == FloatsPerVertex * VertexId(n, x + 1, z)
    ensures forall i :: 0 <= i < |vertices + VertexFloats(x, z)| ==>
      (vertices + VertexFloats(x, z))[i] == SlotAt(n, i)
  {
    var k := VertexId(n, x, z);
    var next := vertices + VertexFloats(x, z);
    VertexIdRoundTrip(n, x, z);
    forall i | 0 <= i < |next|
      ensures next[i] == SlotAt(n, i)
    {
      if i >= |vertices| {
        VertexSlotOf(n, k, i - |vertices|);
      }
    }
  }

  /** The index loop: cell rows z = 0 .. n-1 outer, cell columns x = 0 .. n-1
      inner, two triangles appended per cell. */
  method BuildIndices(n: nat) returns (indices: seq<nat>)
    requires n >= 1
    ensures indices == IndexBuffer(n)
  {
    indices := [];
    var z := 0;
    while z < n
      invariant z <= n
      invariant |indices| == IndicesPerCell * (z * n)
      invariant forall i :: 0 <= i < |indices| ==> indices[i] == IndexAt(n, i)
    {
      var x := 0;
      while x < n
        invariant x <= n
        invariant |indices| == IndicesPerCell * CellId(n, x, z)
        invariant forall i :: 0 <= i < |indices| ==> indices[i] == IndexAt(n, i)
      {
        var start := z * (n + 1) + x;
        AppendCell(n, x, z, indices);
        indices := indices + [start, start + 1, start + n + 1, start + 1, start + n + 2, start + n + 1];
        x := x + 1;
      }
      NextCellRow(n, z);
      z := z + 1;
    }
  }

  /** One step of the index loop: appending the six entries of cell (x, z) to
      the entries of the cells before it yields the entries up to the next cell. */
  lemma AppendCell(n: nat, x: nat, z: nat, indices: seq<nat>)
    requires n >= 1 && x < n && z < n
    requires |indices| == IndicesPerCell * CellId(n, x, z)
    requires forall i :: 0 <= i < |indices| ==> indices[i] == IndexAt(n, i)
    ensures |indices + CellIndices(n, x, z)| == IndicesPerCell * CellId(n, x + 1, z)
    ensures forall i :: 0 <= i < |indices + CellIndices(n, x, z)| ==>
      (indices + CellIndices(n, x, z))[i] == IndexAt(n, i)
  {
    var next := indices + CellIndices(n, x, z);
    forall i | 0 <= i < |next|
      ensures next[i] == IndexAt(n, i)
    {
      if i >= |indices| {
        IndexAtCell(n, x, z, i - |indices|);
      }
    }
  }

  /** After a full row of n cells, the next cell number starts the next row. */
  lemma NextCellRow(n: nat, z: nat)
    ensures CellId(n, 0, z + 1) == CellId(n, n, z)
  {
  }

  /** Both buffers, as the program builds them before uploading them. */
  method BuildGrid(n: nat) returns (vertices: seq<VertexFloat>, indices: seq<nat>)
    requires n >= 1
    ensures |vertices| == FloatsPerVertex * VertexCount(n)
    ensures |indices| == IndicesPerCell * CellCount(n)
    ensures |indices| / 3 == 2 * CellCount(n)
    ensures WellFormedMesh(vertices, indices)
    ensures vertices == VertexBuffer(n) && indices == IndexBuffer(n)
  {
    vertices := BuildVertices(n);
    indices := BuildIndices(n);
    GridDrawable(n);
  }

  /** The reference buffers of every grid size are what the draw call needs. */
  lemma GridDrawable(n: nat)
    requires n >= 1
    ensures WellFormedMesh(VertexBuffer(n), IndexBuffer(n))
  {
    var vertices, indices := VertexBuffer(n), IndexBuffer(n);
    forall i | 0 <= i < |indices|
      ensures indices[i] < |vertices| / FloatsPerVertex
    {
      IndexInBounds(n, i);
    }
  }

  /** What the draw call needs of the two buffers: whole vertices, whole
      triangles, and every index naming a vertex that exists. */
  predicate WellFormedMesh(vertices: seq<VertexFloat>, indices: seq<nat>)
  {
    |vertices| % FloatsPerVertex == 0 &&
    |indices| % 3 == 0 &&
    forall i :: 0 <= i < |indices| ==> indices[i] < |vertices| / FloatsPerVertex
  }
}
