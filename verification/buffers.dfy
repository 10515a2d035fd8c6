/** What the caller's buffers and the decoder's `norm_count` vector hold
    while `parse_stl` runs (src/lib.rs:120-248), stated on their contents
    against the abstract mesh of `MeshBuild`. */
module BufferContents {
  import opened Geometry
  import opened MeshBuild

  /** The running sum the loop keeps in a normal slot for coordinate `c`: the
      first face normal stored as is (src/lib.rs:174-176), each later one
      added to it (src/lib.rs:148-150). */
  function SumOf(ns: seq<Vertex>, c: nat): (r: F32)
    requires |ns| >= 1 && c < 3
    ensures |Summands(r)| == |ns| && Summands(r)[|ns| - 1] == Coord(ns[|ns| - 1], c)
  {
    if |ns| == 1 then Bits(Coord(ns[0], c))
    else Add(SumOf(ns[..|ns| - 1], c), Bits(Coord(ns[|ns| - 1], c)))
  }

  /** The mean the division pass leaves in a normal slot (src/lib.rs:244-246). */
  function MeanOf(ns: seq<Vertex>, c: nat): (r: F32)
    requires |ns| >= 1 && c < 3
    ensures r.Div? && r.d >= 1 && |Summands(r)| == r.d
  {
    Div(SumOf(ns, c), |ns|)
  }

  /** The f32 values a term adds up, in order. */
  function Summands(f: F32): seq<bv32> {
    match f
    case Bits(w) => [w]
    case Add(l, r) => Summands(l) + Summands(r)
    case Div(n, _) => Summands(n)
  }

  /** A normal slot sums coordinate `c` of exactly the face normals collected
      for its vertex, each once, in file order. */
  lemma {:induction false} SumOfSummands(ns: seq<Vertex>, c: nat)
    requires |ns| >= 1 && c < 3
    ensures |Summands(SumOf(ns, c))| == |ns|
    ensures forall k | 0 <= k < |ns| :: Summands(SumOf(ns, c))[k] == Coord(ns[k], c)
  {
    if |ns| > 1 {
      SumOfSummands(ns[..|ns| - 1], c);
    }
  }

  // ---------------------------------------------------------------------
  // What the buffers hold, stated on their contents.

  /** Vertex q's coordinates are at vertices[3q..3q+3]. */
  predicate VertsIn(vs: seq<Vertex>, s: seq<bv32>) {
    && 3 * |vs| <= |s|
    && forall q, c | 0 <= q < |vs| && 0 <= c < 3 :: s[3 * q + c] == Coord(vs[q], c)
  }

  /** Normal slot q holds the running sums of the normals collected for vertex q. */
  predicate SumsIn(ns: seq<seq<Vertex>>, s: seq<F32>) {
    && 3 * |ns| <= |s|
    && (forall q | 0 <= q < |ns| :: |ns[q]| >= 1)
    && forall q, c | 0 <= q < |ns| && 0 <= c < 3 :: s[3 * q + c] == SumOf(ns[q], c)
  }

  /** Normal slot q holds the means of the normals collected for vertex q. */
  predicate MeansIn(ns: seq<seq<Vertex>>, s: seq<F32>) {
    && 3 * |ns| <= |s|
    && (forall q | 0 <= q < |ns| :: |ns[q]| >= 1)
    && forall q, c | 0 <= q < |ns| && 0 <= c < 3 :: s[3 * q + c] == MeanOf(ns[q], c)
  }

  /** The corner indices are the prefix of v_indices. */
  predicate CornersIn(cs: seq<nat>, s: seq<nat>) {
    && |cs| <= |s|
    && forall p | 0 <= p < |cs| :: s[p] == cs[p]
  }

  /** Edge e's endpoints are at e_indices[2e] and e_indices[2e+1]. */
  predicate EdgesIn(es: seq<Edge>, s: seq<nat>) {
    && 2 * |es| <= |s|
    && forall e | 0 <= e < |es| :: s[2 * e] == es[e].a && s[2 * e + 1] == es[e].b
  }

  /** `norm_count[q]` is the number of normals collected for vertex q, zero
      past the last vertex. */
  predicate CountsIn(ns: seq<seq<Vertex>>, s: seq<nat>) {
    && |ns| <= |s|
    && forall q | 0 <= q < |s| :: s[q] == if q < |ns| then |ns[q]| else 0
  }

  /** Elements from `from` on still hold the caller's values `orig`. */
  predicate Unwritten<T(==)>(s: seq<T>, from: nat, orig: seq<T>) {
    |orig| == |s| && forall k | from <= k < |s| :: s[k] == orig[k]
  }

  lemma VertsAppend(vs: seq<Vertex>, s: seq<bv32>, v: Vertex)
    requires VertsIn(vs, s) && 3 * |vs| + 3 <= |s|
    ensures var b := 3 * |vs|;
            VertsIn(vs + [v], s[b := v.x][b + 1 := v.y][b + 2 := v.z])
  {
  }

  lemma SumsAppend(ns: seq<seq<Vertex>>, s: seq<F32>, n: Vertex)
    requires SumsIn(ns, s) && 3 * |ns| + 3 <= |s|
    ensures var b := 3 * |ns|;
            SumsIn(ns + [[n]], s[b := Bits(n.x)][b + 1 := Bits(n.y)][b + 2 := Bits(n.z)])
  {
  }

  lemma SumsAdd(ns: seq<seq<Vertex>>, s: seq<F32>, k: nat, n: Vertex)
    requires SumsIn(ns, s) && k < |ns|
    ensures var b := 3 * k;
            SumsIn(ns[k := ns[k] + [n]],
                   s[b := Add(s[b], Bits(n.x))][b + 1 := Add(s[b + 1], Bits(n.y))][b + 2 := Add(s[b + 2], Bits(n.z))])
  {
    var ns' := ns[k := ns[k] + [n]];
    assert ns'[k][..|ns'[k]| - 1] == ns[k];
    assert forall c | 0 <= c < 3 :: SumOf(ns'[k], c) == Add(SumOf(ns[k], c), Bits(Coord(n, c)));
  }

  lemma CornersAppend(cs: seq<nat>, s: seq<nat>, x: nat)
    requires CornersIn(cs, s) && |cs| < |s|
    ensures CornersIn(cs + [x], s[|cs| := x])
  {
  }

  lemma CountsAppend(ns: seq<seq<Vertex>>, s: seq<nat>, n: Vertex)
    requires CountsIn(ns, s) && |ns| < |s|
    ensures CountsIn(ns + [[n]], s[|ns| := s[|ns|] + 1])
  {
  }

  lemma CountsAdd(ns: seq<seq<Vertex>>, s: seq<nat>, k: nat, n: Vertex)
    requires CountsIn(ns, s) && k < |ns|
    ensures CountsIn(ns[k := ns[k] + [n]], s[k := s[k] + 1])
  {
  }

  lemma EdgesAppend(es: seq<Edge>, s: seq<nat>, e: Edge)
    requires EdgesIn(es, s) && 2 * |es| + 2 <= |s|
    ensures var b := 2 * |es|;
            EdgesIn(es + [e], s[b := e.a][b + 1 := e.b])
  {
  }

  /** The caller's buffers as they were on entry. */
  datatype Originals = Originals(vertices: seq<bv32>, normals: seq<F32>, vIndices: seq<nat>, eIndices: seq<nat>)

  /** The buffers hold state `m`: vertex slots, running normal sums, corner
      indices, edge pairs and counters as far as `m` goes, and the caller's
      values past that. */
  predicate Holds(m: Mesh, vs: seq<bv32>, ns: seq<F32>, vis: seq<nat>, eis: seq<nat>, cs: seq<nat>, o: Originals) {
    && VertsIn(m.verts, vs) && SumsIn(m.normalsOf, ns) && CornersIn(m.corners, vis)
    && EdgesIn(m.edges, eis) && CountsIn(m.normalsOf, cs)
    && Unwritten(vs, 3 * |m.verts|, o.vertices) && Unwritten(ns, 3 * |m.verts|, o.normals)
    && Unwritten(vis, |m.corners|, o.vIndices) && Unwritten(eis, 2 * |m.edges|, o.eIndices)
  }

  /** On success the buffers hold the decoded mesh `m`: vertex coordinates,
      mean normals, corner indices and edge pairs, and the caller's values
      past the part written. */
  predicate Decoded(m: Mesh, vs: seq<bv32>, ns: seq<F32>, vis: seq<nat>, eis: seq<nat>, o: Originals) {
    && VertsIn(m.verts, vs) && MeansIn(m.normalsOf, ns) && CornersIn(m.corners, vis) && EdgesIn(m.edges, eis)
    && Unwritten(vs, 3 * |m.verts|, o.vertices) && Unwritten(ns, 3 * |m.verts|, o.normals)
    && Unwritten(vis, |m.corners|, o.vIndices) && Unwritten(eis, 2 * |m.edges|, o.eIndices)
  }
}
