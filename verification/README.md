# Binary STL decoder of vita-wasm, modelled in Dafny

This project models `parse_stl` from `src/lib.rs` of vita-wasm together with its
helpers. `parse_stl` decodes a binary STL file into four buffers that the caller
allocates: vertex coordinates, vertex normals, per-corner vertex indices and
edge index pairs.

**The file layout.** A binary STL file has:
- an 80-byte header;
- a little-endian `u32` triangle count T;
- T frames of 50 bytes each. A frame holds a face normal, three corner
  vertices and a 2-byte attribute.

**What the decoder does, in order:**
1. It rejects a file that is too short for the header or the count.
2. It rejects a count that the file length cannot hold.
3. It preflights the four buffers (`check_sufficient_memory`).
4. It makes one pass over the frames:
   - It interns every corner vertex by the bit patterns of its three floats.
     New vertices get consecutive indices, and their coordinates are stored
     at `vertices[3k..3k+3]`.
   - It adds the face normal into the vertex's normal slot, counts it in
     `norm_count`, and writes the corner's index to `v_indices[3i+j]`.
   - It records each undirected edge of the triangle once in `e_indices`.
5. It divides every used normal slot by its count.

**Modules:**
- `Words`: little-endian words.
- `Geometry`: vertices as `bv32` bit patterns, edges, and the normal-buffer
  value type `F32`.
- `StlErrors`: errors and outcomes.
- `StlFormat`: the layout, the header and size checks, and an encoder used
  for round trips.
- `Preflight`: `check_sufficient_memory`.
- `MeshBuild`: what one pass builds when no check fires (`Build`), and the
  reference definitions that say what that means.
- `ParseSpec`: the same pass with the source's checks (`Run`) and the whole
  decoder's outcome (`ParseOutcome`).
- `BufferContents`: what the arrays hold.
- `StlParser`: the imperative decoder over arrays. It is proved to end as
  `ParseOutcome` says and, on success, to leave in the arrays exactly what
  `Build` describes.
- `Findings`: two defects of the code as written, and a corrected decoder.

**Modelling choices:**
- Coordinates are kept as the `u32` bit patterns `to_bits()` yields, so a
  Dafny `map<Vertex, nat>` has exactly the keys of the source's `HashMap`.
- A normal slot holds a term built from `Bits`, `Add` and `Div`. This keeps
  the order in which the source adds and divides visible, without IEEE
  arithmetic.
- The edge set holds each edge's hash input, the pair ordered (larger,
  smaller).
- `usize` arithmetic is unbounded. Only the 32-bit size check is written
  out separately, as a finding.
- A write past the end of `e_indices`, which the source does not guard, is
  the outcome `Panic(index, len)`. It is not an error return.

## Model

| member | source | states |
|---|---|---|
| Words.WordLe | src/lib.rs:310-312 | `u32::from_le_bytes`: byte `k` of the input is bits `8k..8k+8` of the word, so the first byte is the least significant; `Words.EncodeDecodeWord` states the same as a round trip |
| Words.WordAt | src/lib.rs:98-100 | the word read at an offset is the one whose little-endian encoding is the four bytes there; `Words.DecodeEncodeWord` gives the other direction |
| Words.F32BitsAt | src/lib.rs:310-312 | `f32_from_le_bytes` keeps the bits: the f32's bit pattern is the little-endian word at the offset, whose encoding is those four bytes |
| Words.DecodeEncodeWord | src/lib.rs:310-312 | reading the four little-endian bytes of a word gives the word back |
| Words.EncodeDecodeWord | src/lib.rs:310-312 | encoding the word read from four bytes gives back those bytes, so reading is one-to-one |
| Geometry.SameBits | src/lib.rs:23-29 | `Vertex::eq` holds exactly when the two vertices are the same value of the model; `Geometry.SameBitsIsEquality` adds its agreement with the hash input |
| Geometry.VertexHashInput | src/lib.rs:46-52 | the three bit patterns fed to the hasher determine the vertex, so the hash input is one-to-one; `Geometry.SameBitsIsEquality` ties it to `Vertex::eq` |
| Geometry.SameBitsIsEquality | src/lib.rs:23-29 | `Vertex::eq` (all three bit patterns equal) is exactly equality of the model's vertices, and holds exactly when the hash inputs (src/lib.rs:46-52) are equal |
| Geometry.OneBitApart | src/lib.rs:23-29 | flipping any single bit of any coordinate gives a vertex that is not equal, so equal vertices are interned together and any differing bit separates them |
| Geometry.SameEdge | src/lib.rs:60-65 | `Edge::eq` holds exactly when the two edges have the same endpoints as an unordered pair (equal multisets); `Geometry.EdgeHashAgrees` ties it to the hash |
| Geometry.EdgeHashInput | src/lib.rs:67-77 | the pair fed to the hasher is the two endpoints, larger first |
| Geometry.SameEdgeIsEquivalence | src/lib.rs:61-65 | edge equality, symmetric in its endpoints, is reflexive, symmetric and transitive |
| Geometry.EdgeHashAgrees | src/lib.rs:61-77 | two edges are equal exactly when their hash inputs are equal, so the hash agrees with equality in both directions |
| StlFormat.ReadVertex | src/lib.rs:303-308 | re-encoding the vertex `read_vertex` returns gives back the 12 bytes it read; `StlFormat.ReadVertexBytes` is the other direction |
| StlFormat.ReadTriangle | src/lib.rs:130-137 | the frame at `84 + 50 * i` is exactly the encoding of the triangle read from it followed by its two attribute bytes; `StlFormat.ReadTriangleAt` is the other direction |
| StlFormat.ReadHeader | src/lib.rs:87-100 | fewer than 80 bytes gives the header error, 80 to 83 bytes give the count error, and 84 or more give the count: the little-endian word at bytes 80..84 |
| StlFormat.Triangles | src/lib.rs:129-137 | decoding `t` declared frames yields exactly `t` triangles |
| StlFormat.DeclaredSizeCheck | src/lib.rs:103-114 | the check passes exactly when `84 + 50 * t` bytes are present, and otherwise reports `t` and the file length |
| StlFormat.SizeCheckCoversFrames | src/lib.rs:107-137 | the size check passes exactly when every frame the loop reads lies inside the file |
| StlFormat.DeclaredSizeCheckWasm32 | src/lib.rs:107 | on a 32-bit target the check compares the file length with `84 + 50 * t` reduced modulo 2^32 |
| StlFormat.WrappedSizeCheckAdmitsShortFile | src/lib.rs:107 | an 88-byte file declaring 85899346 triangles passes the 32-bit check but not the intended one, and holds no complete frame |
| StlFormat.VertexBytes | src/lib.rs:303-308 | a vertex is encoded in 12 bytes |
| StlFormat.FrameBytes | src/lib.rs:103-105 | a frame is encoded in 50 bytes |
| StlFormat.FramesBytes | src/lib.rs:129-130 | `n` frames are encoded in `50 * n` bytes |
| StlFormat.EncodeStl | src/lib.rs:103-107 | an encoded file is exactly as long as the size check requires for its triangles |
| StlFormat.ReadVertexBytes | src/lib.rs:303-312 | `read_vertex` inverts the vertex encoding |
| StlFormat.ReadTriangleAt | src/lib.rs:130-137 | a frame at offset `84 + 50 * i` holding an encoded triangle reads back as that triangle |
| StlFormat.EncodedCount | src/lib.rs:98-100 | the count read from an encoded file is the count written into it |
| StlFormat.DecodeEncode | src/lib.rs:87-137 | a file encoded from a header and triangles passes the header and size checks and decodes back to the same triangles |
| Preflight.CheckSufficientMemory | src/lib.rs:251-301 | no error exactly when both coordinate buffers hold `3 * (t / 2 + 2)` and both index buffers hold `3 * t` elements; otherwise the error names the first short buffer in the order vertices, normals, vertex indices, edge indices, with its length, the requirement and `t` |
| Preflight.EachShortBufferIsNamed | src/lib.rs:258-298 | each of the four checks fires on its own: shortening one adequate buffer by one element yields exactly the error naming it |
| MeshBuild.IndexFor | src/lib.rs:138-154 | in a consistent state the index chosen for a corner is its vertex's own slot when `vset` holds it, and the next free slot `vpos / 3` exactly when it does not |
| MeshBuild.Hit | src/lib.rs:138-152 | a corner at a stored vertex appends that vertex's index, leaves the vertex map, the vertex list and the edges unchanged, and keeps the state invariant |
| MeshBuild.Miss | src/lib.rs:153-180 | a corner at a new vertex assigns it the next index `vpos / 3`, appends it to the vertex list and the map, and keeps the state invariant |
| MeshBuild.MissKeepsValid | src/lib.rs:153-180 | storing a new vertex with its first normal keeps the map and the vertex list inverse to each other and every count equal to the corners at its vertex |
| MeshBuild.Resolve | src/lib.rs:137-181 | a corner resolves to an index naming its own vertex, which the map then holds; the vertex list grows by at most one, and by one exactly when the vertex was new; edges are untouched |
| MeshBuild.AddEdge | src/lib.rs:206-215 | an edge is appended exactly when no equal edge was recorded, and afterwards its key is in the edge set |
| MeshBuild.ResolveCorners | src/lib.rs:136-202 | resolving `j` corners appends `j` indices, keeps the earlier ones, adds at most `j` vertices and keeps the invariant |
| MeshBuild.CornerEdges | src/lib.rs:206-237 | the corner list yields three edges per complete triangle |
| MeshBuild.CloseTriangle | src/lib.rs:206-237 | the three edges of the latest triangle add at most three entries and leave vertices, normals and corners alone |
| MeshBuild.AddTriangle | src/lib.rs:129-238 | one iteration appends three corner indices, at most three vertices and at most three edges, and keeps the invariant |
| MeshBuild.Build | src/lib.rs:129-240 | after `T` triangles the state is consistent: it has `3T` corner indices and at most `3T` vertices and edges |
| MeshBuild.CornerVertices | src/lib.rs:136-137 | there are three corner vertices per triangle, in file order |
| MeshBuild.CornerNormals | src/lib.rs:132-137 | each corner carries its triangle's face normal, three per triangle |
| MeshBuild.VertsDistinct | src/lib.rs:153-180 | no vertex is stored twice |
| MeshBuild.InIndexIffListed | src/lib.rs:138-178 | a vertex is in `vset` exactly when it is stored in the vertex list |
| MeshBuild.ResolveAgrees | src/lib.rs:137-181 | resolving one more corner keeps the state equal to the reference description of all corners read so far |
| MeshBuild.ResolveCornersAgrees | src/lib.rs:136-202 | the same holds after any number of a triangle's corners |
| MeshBuild.AddEdgeAgrees | src/lib.rs:210-215 | adding an edge keeps the edge list equal to the first occurrences of the edges offered so far |
| MeshBuild.AddTriangleAgrees | src/lib.rs:129-238 | one iteration keeps the vertex, corner and normal state equal to its reference description |
| MeshBuild.CloseTriangleAgrees | src/lib.rs:206-237 | closing a triangle extends the edge list to the first occurrences of the edges of every triangle so far |
| MeshBuild.AddTriangleEdgesAgree | src/lib.rs:206-237 | one iteration keeps the edge list equal to the first occurrences of all triangle edges so far |
| MeshBuild.BuildAgrees | src/lib.rs:129-240 | the whole pass yields the reference vertices, indices, normal lists and edge list of the file's corners |
| MeshBuild.FirstEdgesFacts | src/lib.rs:206-237 | the deduplicated edge list covers every offered edge in some orientation, holds no two equal edges, takes each entry from the offered edges and is no longer than they are |
| MeshBuild.VerticesInFirstAppearanceOrder | src/lib.rs:153-179 | stored vertices are the distinct corner vertices in order of first appearance, and `v_indices[p]` names corner `p`'s own vertex |
| MeshBuild.SameIndexIffSameBits | src/lib.rs:138-180 | two corners get the same index exactly when their vertices have the same three bit patterns |
| MeshBuild.NextIndexOnFirstAppearance | src/lib.rs:154 | a corner at a vertex seen for the first time gets the count of distinct vertices so far, and otherwise an index below it |
| MeshBuild.NormalsCollectedPerVertex | src/lib.rs:148-199 | slot `k` collects the face normals of exactly the corners at vertex `k`, in order; `norm_count[k]` is the number of those corners and is at least 1; the counts sum to `3T` |
| MeshBuild.EdgesAreDistinctTriangleEdges | src/lib.rs:206-237 | the edge list is the first occurrences of all triangle edges: every triangle edge is present in some orientation, no two entries are equal, the edge set is exactly their keys, and `epos` is at most `6T` |
| ParseSpec.ParseOutcome | src/lib.rs:80-249 | `parse_stl` as a function: success implies a complete file whose count passes the preflight; `ParseSpec.ParseSucceedsIff` gives the exact success condition, `ParseSpec.EarlyErrorsInOrder` the errors before the loop, and `StlParser.Parse` is proved to end as it says |
| ParseSpec.CornerFault | src/lib.rs:140-198 | a check failing on a corner is a bound error naming the triangle being read |
| ParseSpec.RunCorners | src/lib.rs:136-202 | the corners of a triangle either get through, giving the ideal state, or stop at a bound error of that triangle |
| ParseSpec.EdgeFault | src/lib.rs:210-237 | an edge write can only fail as an abort at an index not below the length of `e_indices` |
| ParseSpec.RunEdges | src/lib.rs:206-237 | the edges of a triangle either get through, giving the ideal state, or abort |
| ParseSpec.TriangleStep | src/lib.rs:129-238 | one iteration either gets through with the ideal state or ends in an in-loop bound error or an abort |
| ParseSpec.Run | src/lib.rs:129-240 | a loop that gets through has built exactly the ideal mesh |
| ParseSpec.CornerFaultIff | src/lib.rs:140-198 | the checks on a corner pass exactly when the state after it still fits the buffers |
| ParseSpec.RunCornersIff | src/lib.rs:136-202 | a triangle's corners get through exactly when the state after them fits |
| ParseSpec.EdgeFaultIff | src/lib.rs:210-237 | an edge is written without abort exactly when the edge list after it fits `e_indices` |
| ParseSpec.RunEdgesIff | src/lib.rs:206-237 | a triangle's edges get through exactly when the state after them fits |
| ParseSpec.TriangleStepIff | src/lib.rs:129-238 | one iteration gets through exactly when the state after it fits |
| ParseSpec.RunSucceedsIffFits | src/lib.rs:129-240 | the loop gets through exactly when the ideal mesh fits the buffers, and it then yields that mesh |
| ParseSpec.ParseSucceedsIff | src/lib.rs:80-249 | the decoder succeeds exactly when the file is complete, the preflight passes, the distinct vertices number at most `T / 2 + 2`, and the distinct edges fit `e_indices` |
| ParseSpec.LoopSucceedsIff | src/lib.rs:116-240 | after a passing preflight only two things can stop the loop: more than `T / 2 + 2` distinct vertices, or more edge pairs than `e_indices` holds |
| ParseSpec.FitsAfterPreflight | src/lib.rs:251-301 | after a passing preflight the coordinate and `v_indices` requirements are met by every state, so only the vertex count and the edge count remain |
| ParseSpec.EarlyErrorsInOrder | src/lib.rs:87-118 | the header error, the count error, the size mismatch and the preflight errors occur exactly on their conditions, in this order |
| ParseSpec.RunNeverEarly | src/lib.rs:129-240 | the loop never yields a header, size or preflight error |
| BufferContents.SumOf | src/lib.rs:148-150 | a slot's running sum has one summand per collected normal, the latest one last (the first stored as is at src/lib.rs:174-176); `BufferContents.SumOfSummands` states every summand |
| BufferContents.MeanOf | src/lib.rs:244-246 | the division pass divides a slot's sum by a positive count equal to the number of normals summed in it |
| BufferContents.SumOfSummands | src/lib.rs:148-150 | a normal slot sums exactly the corresponding coordinates of the face normals collected for its vertex, each once and in file order |
| StlParser.StoreHit | src/lib.rs:140-151 | on a hit the face normal is added into the vertex's slot and nothing past the used part changes |
| StlParser.StoreNew | src/lib.rs:153-180 | on a miss the vertex bound check comes first, then the normal bound check; when both pass the coordinates and the first normal are in the next slot |
| StlParser.RecordCorner | src/lib.rs:182-199 | the `v_indices` bound check comes first, then the `norm_count` check; when both pass the index is at `3i+j` and the count is incremented |
| StlParser.PlaceCorner | src/lib.rs:137-200 | one corner fails exactly as the specification of the corner checks says, and otherwise leaves the arrays holding the state after the corner |
| StlParser.PlaceEdge | src/lib.rs:206-237 | one edge aborts exactly as the edge specification says, and otherwise leaves `e_indices`, `eset` and `epos` describing the state after it |
| StlParser.CornerOfFrame | src/lib.rs:130-137 | corner `j` of frame `i` is read `12 * (j + 1)` bytes into the frame |
| StlParser.DecodeCorner | src/lib.rs:136-201 | reading and placing corner `j` extends the specified run of the triangle's corners, or ends it with the failure the run reports |
| StlParser.DecodeCorners | src/lib.rs:136-202 | the three corners end exactly as the run of corners says, and on success return the three recorded indices |
| StlParser.CloseEdges | src/lib.rs:206-237 | the three edges end exactly as the run of edges says and leave `e_indices` holding the closed triangle's edges |
| StlParser.DecodeTriangle | src/lib.rs:129-238 | one iteration ends exactly as one step of the specification says, and otherwise leaves the arrays holding the state after it |
| StlParser.DecodeNext | src/lib.rs:129-240 | iteration `i` extends the specified run over the first `i` frames to the first `i + 1` |
| StlParser.DivideStep | src/lib.rs:244-246 | dividing one more slot by its count keeps means below the cursor and sums above it |
| StlParser.Normalize | src/lib.rs:244-246 | the final loop turns every used normal slot into the mean of the normals collected for its vertex, dividing by a positive count, and leaves the rest of the buffer alone |
| StlParser.DecodeAll | src/lib.rs:127-240 | the triangle loop ends exactly as `Run` says, and when it gets through the arrays hold the built mesh |
| StlParser.OutcomeAfterPreflight | src/lib.rs:116-133 | once the header, the size check and the preflight pass, the outcome is the loop's |
| StlParser.DecodeMesh | src/lib.rs:120-248 | everything after the preflight ends as the run over the file's frames says; it only fails with bound errors, and on success the arrays hold the built mesh |
| StlParser.Parse | src/lib.rs:80-249 | `parse_stl` ends exactly as `ParseOutcome` says; an error before the loop leaves all four buffers untouched; on success they hold the coordinates of the distinct vertices, their mean normals, the corner indices and the distinct edges, and the caller's values past the written part |
| Findings.SingleTriangleRejected | src/lib.rs:191-197 | a file of one triangle with three distinct corners is never decoded, whatever buffers the caller supplies |
| Findings.PreflightAdmitsPanic | src/lib.rs:279-298 | buffers that pass the preflight for a two-triangle file still let the decoder write past the end of `e_indices` |
| Findings.CorrectedPreflight | src/lib.rs:251-301 | the corrected preflight passes exactly when the source's does and `e_indices` holds `6 * t` entries; it reports the source's errors otherwise, and an edge-buffer error with the raised requirement |
| Findings.CorrectedOutcome | src/lib.rs:80-249 | the corrected decoder: success implies a complete file that passes the corrected preflight; `Findings.CorrectedSucceedsIff` and `Findings.CorrectedNeverPanics` state its exact behaviour |
| Findings.CorrectedSucceedsIff | src/lib.rs:80-249 | the corrected decoder succeeds exactly when the file is complete, the corrected preflight passes and the distinct vertices fit the coordinate buffers |
| Findings.CorrectedLoopSucceedsIff | src/lib.rs:120-240 | after the corrected preflight, the loop fails only when the distinct vertices outgrow the coordinate buffers |
| Findings.CorrectedAcceptsSingleTriangle | src/lib.rs:124-126 | the corrected decoder accepts the one-triangle file the source rejects |
| Findings.RunEdgesWithRoom | src/lib.rs:206-237 | with room for six more entries in `e_indices` a triangle's edges never abort |
| Findings.NoPanicWithRoom | src/lib.rs:206-237 | with `6T` entries in `e_indices` the loop never aborts |
| Findings.CorrectedNeverPanics | src/lib.rs:206-237 | the corrected decoder never aborts, on any file and any buffers |

## Left out

- The matrix routines `invert_mat4x4`, `inverted_mat4x4` and `rotate_mat4x4` (src/lib.rs:319-497) are left out. They are f64 numerics unrelated to the decoder.
- `Vertex`'s `Ord` (src/lib.rs:33-44) is left out. It compares float sums and the decoder never uses it.
- IEEE-754 addition and division of normals (src/lib.rs:148-150, 245) are not computed. A slot holds the term `Add(..)`/`Div(..)`, which records the exact sequence of operations.
- The `as f32` conversion of a count before dividing (src/lib.rs:245) is left out, because counts are kept exact.
- `HashMap`/`HashSet` internals and the `reserve` hints are left out. This includes the float cast at src/lib.rs:123, which only affects capacity. The containers are a Dafny `map` and a `set` of edge keys.
- `println!` (src/lib.rs:101), the `wasm_bindgen` glue and the text of the error messages are left out. Errors are datatype constructors that carry the numbers the messages report.
- Vertex indices are `nat`, not `u32`. A mesh with 2^32/3 or more distinct vertices, where `idx * 3` at src/lib.rs:140 would overflow, is not modelled.
- `usize` is unbounded in the main model. The 32-bit wrap of the size check is covered only by the finding below.
- Buffers hold `bv32` bit patterns and `F32` terms rather than `f32`, and the index buffers hold `nat`.
- StlParser.Parse: leaves the contents of the buffers unspecified after an in-loop bound error or an abort. The source has then written part of the mesh.
- StlParser.Parse: requires the four buffers to be distinct arrays. Rust's exclusive borrows guarantee this for the four `&mut` slices.
- The `unwrap` of `read_vertex` (src/lib.rs:132, 137) is not modelled as a failure. The size check guarantees 12 bytes at every read, so the `try_into` cannot fail.

## Findings

| source | as written | input that shows it | evidently intended | confidence | as-written member | corrected member |
|---|---|---|---|---|---|---|
| src/lib.rs:124-126 | `norm_count` has `T / 2 + 2` entries, and the check at src/lib.rs:191-197 rejects any vertex index at or past that | any file of one triangle with three distinct corners, with buffers of any size | the caller's buffers bound the vertex count; here `norm_count` is sized like the vertex buffer (`vertices.len() / 3`), and success then depends only on the file being complete and the buffers being large enough | high, not executed | Findings.SingleTriangleRejected | Findings.CorrectedSucceedsIff |
| src/lib.rs:279-298 | the preflight asks for `3 * T` edge-index entries, but up to `6 * T` are written without a bound check (src/lib.rs:211-234) | two triangles (a, b, c) and (a, a, b) with a, b, c distinct, buffers of lengths 9, 9, 6 and 6: the preflight passes and the fourth edge is written at index 6 of a 6-element `e_indices` | the preflight guarantees every write the loop makes: it requires `6 * T` edge-index entries, and no file aborts | high, not executed | Findings.PreflightAdmitsPanic | Findings.CorrectedNeverPanics |
| src/lib.rs:107 | `84 + T * 50` is computed in `usize`, which is 32 bits on wasm32 and wraps | an 88-byte file declaring T = 85899346 passes the check (`84 + 50 * T` is 2^32 + 88), and the first frame read then runs past the end | the check compares the file length with the unwrapped byte count, so every frame read lies inside the file | low (the preflight then needs about 3 GB of caller buffers), not executed | StlFormat.WrappedSizeCheckAdmitsShortFile | StlFormat.SizeCheckCoversFrames |
