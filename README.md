# Ocean grid mesh: a verified model

The ocean-waves demo draws a flat square grid that its vertex shader
displaces with Gerstner waves. Before the render loop starts, `main` builds
that grid once, into two buffers that it then uploads to the GPU:

- an interleaved **vertex buffer** of six floats per grid point: the x
  position, `0.0` for y, the z position, then the normal `(0, 1, 0)`. The
  points are written row by row (z outer, x inner, both `0 ..= gridSize`);
- a **triangle index buffer** of six indices per grid cell: two triangles
  `start, start+1, start+gridSize+1` and
  `start+1, start+gridSize+2, start+gridSize+1`, where
  `start = z*(gridSize+1)+x`. The cells are written row by row too.

This project models that construction in Dafny:

- `GridArith` (`grid_arith.dfy`) holds the integer facts behind row-major
  numbering: quotient and remainder are unique, and products are monotone.
- `MeshLayout` (`mesh_layout.dfy`) defines, without loops, what each buffer
  slot holds. `SlotAt` and `IndexAt` find the vertex or cell of a slot by
  division and remainder. `VertexBuffer` and `IndexBuffer` are the whole
  buffers. The lemmas prove what a renderer relies on: buffer sizes,
  row-major placement, indices in bounds, triangles that never wrap across
  a row, a shared diagonal, the same winding for every triangle, and every
  vertex used.
- `MeshBuilder` (`mesh_builder.dfy`) holds the two nested loop pairs as
  methods over the grid size `n`. Each is proved to produce exactly the
  buffer `MeshLayout` defines. `BuildGrid` runs both and proves that the
  result is a well-formed mesh for the draw call.

A float of the vertex buffer is modelled by the datatype `VertexFloat`.
The x and z positions are kept as the integer column and row they are
computed from (`XPos(x)`, `ZPos(z)`). The y component and the normal
components are the exact constants `Zero` and `One`. Indices are `nat`.
The grid size is a parameter `n >= 1`. The program hard-codes 100
(`SourceGridSize`).

## Model

| member | source | states |
|---|---|---|
| `MeshBuilder.BuildVertices` | src/main.cpp:135-146 | the nested z/x loop produces exactly `VertexBuffer(n)`: 6·(n+1)² floats, slot i holding float i mod 6 of vertex i div 6 |
| `MeshBuilder.BuildIndices` | src/main.cpp:147-157 | the nested z/x cell loop produces exactly `IndexBuffer(n)`: 6·n² entries, slot i holding entry i mod 6 of cell i div 6 |
| `MeshBuilder.AppendVertex` | src/main.cpp:136-145 | one inner vertex-loop step keeps the "slots so far match the layout" invariant and advances the length to the next grid point |
| `MeshBuilder.AppendCell` | src/main.cpp:148-156 | one inner index-loop step keeps the "entries so far match the layout" invariant and advances the length to the next cell |
| `MeshBuilder.BuildGrid` | src/main.cpp:131-157 | the two buffers have 6·(n+1)² and 6·n² entries, the draw call sees 2·n² triangles, and every index is below the number of vertices |
| `MeshBuilder.GridDrawable` | src/main.cpp:211 | the buffers handed to `glDrawElements(GL_TRIANGLES, indices.size(), …)` are whole: whole six-float vertices, whole three-index triangles, and every index names an existing vertex (`WellFormedMesh`) |
| `MeshLayout.CellIndices` | src/main.cpp:149-155 | a cell's six entries are two triangles of three distinct vertices each; they share exactly the diagonal start+1 / start+n+1; for a real cell every entry is below (n+1)² |
| `MeshLayout.CellBelowLastVertex` | src/main.cpp:154 | the largest index of a real cell, start+n+2, is still below (n+1)² |
| `MeshLayout.VertexIdRoundTrip` | src/main.cpp:135-136 | grid point (x, z) with x, z ≤ n gets a number below (n+1)², and its column and row are recovered from it |
| `MeshLayout.VertexDecodeRoundTrip` | src/main.cpp:135-136 | every vertex number below (n+1)² is the number of exactly one grid point with x, z ≤ n |
| `MeshLayout.CellIdRoundTrip` | src/main.cpp:147-148 | cell (x, z) with x, z < n gets a number below n², and its column and row are recovered from it |
| `MeshLayout.VertexSlotOf` | src/main.cpp:139-144 | slot 6k+j of the vertex buffer is float j of vertex k |
| `MeshLayout.VertexAttributes` | src/main.cpp:167-169 | for every vertex k below (n+1)², the attribute pointers (stride 6 floats, position at offset 0, normal at offset 3) lie inside the buffer and read back exactly what lines 139-144 pushed: position (column, 0.0, row) and normal (0.0, 1.0, 0.0) |
| `MeshLayout.VertexPlacement` | src/main.cpp:135-146 | grid point (x, z) occupies slots 6·(z·(n+1)+x) to 6·(z·(n+1)+x)+5, in row-major order |
| `MeshLayout.IndexAtCell` | src/main.cpp:147-155 | entry 6·(z·n+x)+j of the index buffer is entry j of cell (x, z): the cells are emitted row-major |
| `MeshLayout.IndexPlacement` | src/main.cpp:147-157 | the six-entry window at offset 6·(z·n+x) equals the entries of cell (x, z) |
| `MeshLayout.IndexInBounds` | src/main.cpp:149-155 | every entry of the index buffer is strictly below the vertex count (n+1)² |
| `MeshLayout.NextRow` | src/main.cpp:152 | adding n+1 to a vertex number moves one row down in the same column |
| `MeshLayout.CellCorners` | src/main.cpp:148-155 | no triangle wraps across a row: the six entries of cell (x, z) decode to the grid points (x,z), (x+1,z), (x,z+1), (x+1,z), (x+1,z+1), (x,z+1) |
| `MeshLayout.CellWinding` | src/main.cpp:150-155 | both triangles of every cell have the same orientation and signed double area 1, so together they tile the unit cell |
| `MeshLayout.EveryVertexReferenced` | src/main.cpp:135-157 | every vertex of the grid is named by some entry of the index buffer |
| `MeshLayout.CellPositions` | src/main.cpp:147-157 | each vertex a cell names exists, its position attribute is its own grid point, which lies within one step of the cell's corner, and its normal is up |
| `MeshLayout.SourceGridSizes` | src/main.cpp:131 | for the program's grid size 100, the buffers hold 61206 floats and 60000 indices, and every index is below 2^31 |

## Left out

- Window and context creation, input handling and the OpenGL function loader (src/main.cpp:82-100): platform I/O.
- Shader compilation and linking and the printed error logs (src/main.cpp:102-130): calls into the OpenGL driver.
- Buffer upload, vertex-attribute setup (src/main.cpp:158-170) and teardown (src/main.cpp:215-219): thin wrappers over OpenGL. Only the attribute layout is modelled: `PositionAttr` and `NormalAttr` read a vertex's attributes (stride 6 floats, offsets 0 and 3), and `VertexAttributes` proves what they read back.
- The render loop, the uniform uploads and the camera matrices from `glm::lookAt` and `glm::perspective` (src/main.cpp:185-213): OpenGL calls and library matrix code that is not part of this model.
- The Gerstner wave cascade and the lighting in the shaders (src/main.cpp:26-45 and 67-78): floating-point trigonometry, `pow`, `normalize` and `reflect`, evaluated on the GPU.
- The float positions `((float)x / gridSize - 0.5f) * gridExtent * 2` (src/main.cpp:137-138) and the clock step `timeValue += 0.01f` (src/main.cpp:204): float rounding is out of scope, so positions are kept as integer grid coordinates.
- MeshBuilder.BuildIndices: indices are unbounded `nat`. The C++ computes `start` as a 32-bit `int` and stores it as `unsigned int`; this overflows once (n+1)² exceeds 2^31. `SourceGridSizes` shows that the program's size 100 stays far below that.
- MeshBuilder.BuildGrid: the draw call `glDrawElements(GL_TRIANGLES, indices.size(), …)` (src/main.cpp:211) passes the index count as a 32-bit `GLsizei`. The model counts with unbounded integers, so "2·n² triangles" assumes 6·n² ≤ 2^31 − 1. That fails from n = 18919 on, before the `start` overflow at n = 46340. `SourceGridSizes` shows that the program's count of 60000 is well within range.
- MeshBuilder.BuildVertices: requires n ≥ 1. With a grid size of 0 the C++ divides 0.0 by 0 and writes NaN positions. The intended input is a positive size.
- MeshBuilder.BuildIndices: requires n ≥ 1, for the same reason. With a size of 0 the C++ index loop does nothing.
- Each group of six `push_back` calls is one append of six elements in the model. The states in between are never observed.
