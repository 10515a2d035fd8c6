/** What one pass of the parse loop (src/lib.rs:120-240) builds, with every
    bound check passing: the vertex interner `vset`, the distinct vertices in
    index order, the face normals accumulated per vertex, the per-corner
    indices, the edge set `eset` and the edge list. `Build` is that pass as a
    function; the lemmas relate it to reference definitions that say what the
    outputs mean. */
module MeshBuild {
  import opened Geometry
  import opened StlFormat

  /** The decoder's state after a prefix of the corners and edges. */
  datatype Mesh = Mesh(
    index: map<Vertex, nat>,      // `vset`: vertex -> assigned index
    verts: seq<Vertex>,           // vertex k is stored at vertices[3k..3k+3]
    normalsOf: seq<seq<Vertex>>,  // face normals added into normal slot k, in order
    corners: seq<nat>,            // v_indices[0..3i+j]
    edgeKeys: set<(nat, nat)>,    // `eset`, each edge by its hash input
    edges: seq<Edge>)             // e_indices[0..epos], two entries per edge

  const Empty: Mesh := Mesh(map[], [], [], [], {}, [])

  /** Hash inputs of a list of edges: what a `HashSet<Edge>` of them holds. */
  function KeysOf(es: seq<Edge>): set<(nat, nat)> {
    set e | e in es :: EdgeHashInput(e)
  }

  /** No two edges of the list are equal as unordered pairs. */
  predicate KeysDistinct(es: seq<Edge>) {
    forall p, q | 0 <= p < q < |es| :: EdgeHashInput(es[p]) != EdgeHashInput(es[q])
  }

  /** Number of entries of `s` equal to `k`. */
  function Occurrences(s: seq<nat>, k: nat): nat {
    if s == [] then 0
    else Occurrences(s[..|s| - 1], k) + (if s[|s| - 1] == k then 1 else 0)
  }

  /** Sum of the lengths of the lists. */
  function TotalLength(s: seq<seq<Vertex>>): nat {
    if s == [] then 0 else TotalLength(s[..|s| - 1]) + |s[|s| - 1]|
  }

  /** The invariant of the loop state: `vset` and the vertex list are inverse
      to each other, every vertex slot has at least one normal, indices in
      `v_indices` and `e_indices` name assigned vertices, `eset` holds exactly
      the written edges and none is written twice, and `norm_count[k]` (the
      number of normals added to slot k) counts the corners at vertex k. */
  ghost predicate Valid(m: Mesh) {
    && |m.normalsOf| == |m.verts|
    && (forall v | v in m.index :: m.index[v] < |m.verts| && m.verts[m.index[v]] == v)
    && (forall k | 0 <= k < |m.verts| :: m.verts[k] in m.index && m.index[m.verts[k]] == k)
    && (forall k | 0 <= k < |m.normalsOf| :: |m.normalsOf[k]| == Occurrences(m.corners, k) >= 1)
    && TotalLength(m.normalsOf) == |m.corners|
    && (forall p | 0 <= p < |m.corners| :: m.corners[p] < |m.verts|)
    && (forall e | e in m.edges :: e.a < |m.verts| && e.b < |m.verts|)
    && m.edgeKeys == KeysOf(m.edges)
    && KeysDistinct(m.edges)
  }

  /** Index a corner at vertex `v` resolves to: the stored one on a hit, the
      next free one (`vpos / 3`) on a miss (src/lib.rs:138-154). */
  function IndexFor(m: Mesh, v: Vertex): (r: nat)
    ensures Valid(m) ==> SlotFor(m, v, r)
  {
    if v in m.index then m.index[v] else |m.verts|
  }

  /** `k` is the slot of `v`: its own slot if stored, else the next free one. */
  predicate SlotFor(m: Mesh, v: Vertex, k: nat) {
    k <= |m.verts| && (k == |m.verts| <==> v !in m.index) && (k < |m.verts| ==> m.verts[k] == v)
  }

  lemma OccurrencesAppend(s: seq<nat>, x: nat, k: nat)
    ensures Occurrences(s + [x], k) == Occurrences(s, k) + (if x == k then 1 else 0)
  {
    assert (s + [x])[..|s|] == s;
  }

  lemma {:induction false} OccurrencesAbsent(s: seq<nat>, k: nat)
    requires forall p | 0 <= p < |s| :: s[p] < k
    ensures Occurrences(s, k) == 0
  {
    if s != [] {
      OccurrencesAbsent(s[..|s| - 1], k);
    }
  }

  lemma TotalLengthAppend(s: seq<seq<Vertex>>, x: seq<Vertex>)
    ensures TotalLength(s + [x]) == TotalLength(s) + |x|
  {
    assert (s + [x])[..|s|] == s;
  }

  lemma {:induction false} TotalLengthUpdate(s: seq<seq<Vertex>>, k: nat, x: Vertex)
    requires k < |s|
    ensures TotalLength(s[k := s[k] + [x]]) == TotalLength(s) + 1
  {
    var n := |s| - 1;
    var s' := s[k := s[k] + [x]];
    if k == n {
      assert s'[..n] == s[..n];
    } else {
      assert s'[..n] == s[..n][k := s[k] + [x]];
      TotalLengthUpdate(s[..n], k, x);
    }
  }

  /** A corner at vertex k, already assigned: its face normal joins slot k
      and k is appended to `v_indices` (src/lib.rs:138-152, 182-199). */
  function Hit(m: Mesh, k: nat, n: Vertex): (r: Mesh)
    requires Valid(m) && k < |m.verts|
    ensures Valid(r)
    ensures r.corners == m.corners + [k]
    ensures r.index == m.index && r.verts == m.verts && r.edges == m.edges && r.edgeKeys == m.edgeKeys
  {
    var r := m.(normalsOf := m.normalsOf[k := m.normalsOf[k] + [n]], corners := m.corners + [k]);
    TotalLengthUpdate(m.normalsOf, k, n);
    forall q | 0 <= q < |r.normalsOf|
      ensures |r.normalsOf[q]| == Occurrences(r.corners, q) >= 1
    {
      OccurrencesAppend(m.corners, k, q);
    }
    assert forall p | 0 <= p < |r.corners| :: r.corners[p] < |r.verts|;
    r
  }

  /** A corner at a vertex seen for the first time: it gets the next index,
      its coordinates and first normal fill a new slot, and the index is
      appended to `v_indices` (src/lib.rs:153-180, 182-199). */
  function Miss(m: Mesh, v: Vertex, n: Vertex): (r: Mesh)
    requires Valid(m) && v !in m.index
    ensures Valid(r)
    ensures r.corners == m.corners + [|m.verts|]
    ensures r.verts == m.verts + [v] && r.index == m.index[v := |m.verts|]
    ensures r.edges == m.edges && r.edgeKeys == m.edgeKeys
  {
    MissKeepsValid(m, v, n);
    m.(index := m.index[v := |m.verts|], verts := m.verts + [v],
       normalsOf := m.normalsOf + [[n]], corners := m.corners + [|m.verts|])
  }

  lemma MissKeepsValid(m: Mesh, v: Vertex, n: Vertex)
    requires Valid(m) && v !in m.index
    ensures Valid(m.(index := m.index[v := |m.verts|], verts := m.verts + [v],
                     normalsOf := m.normalsOf + [[n]], corners := m.corners + [|m.verts|]))
  {
    var k := |m.verts|;
    MissIndexes(m.index, m.verts, v);
    MissCounts(m.normalsOf, m.corners, n);
    var c := m.corners + [k];
    assert forall p | 0 <= p < |c| :: c[p] < k + 1;
  }

  /** Assigning the next index to a new vertex keeps `vset` and the vertex
      list inverse to each other. */
  lemma MissIndexes(index: map<Vertex, nat>, verts: seq<Vertex>, v: Vertex)
    requires forall u | u in index :: index[u] < |verts| && verts[index[u]] == u
    requires forall k | 0 <= k < |verts| :: verts[k] in index && index[verts[k]] == k
    requires v !in index
    ensures var index', verts' := index[v := |verts|], verts + [v];
            && (forall u | u in index' :: index'[u] < |verts'| && verts'[index'[u]] == u)
            && (forall k | 0 <= k < |verts'| :: verts'[k] in index' && index'[verts'[k]] == k)
  {
    var index', verts' := index[v := |verts|], verts + [v];
    forall u | u in index'
      ensures index'[u] < |verts'| && verts'[index'[u]] == u
    {
      if u != v {
        assert u in index;
      }
    }
    forall q | 0 <= q < |verts'|
      ensures verts'[q] in index' && index'[verts'[q]] == q
    {
      if q < |verts| {
        assert verts'[q] == verts[q];
        assert verts[q] != v;
      }
    }
  }

  /** A new slot holding one normal, and its index appended to the corners,
      keeps the per-slot normal counts equal to the corner counts. */
  lemma MissCounts(normalsOf: seq<seq<Vertex>>, corners: seq<nat>, n: Vertex)
    requires forall q | 0 <= q < |normalsOf| :: |normalsOf[q]| == Occurrences(corners, q) >= 1
    requires TotalLength(normalsOf) == |corners|
    requires forall p | 0 <= p < |corners| :: corners[p] < |normalsOf|
    ensures var ns, cs := normalsOf + [[n]], corners + [|normalsOf|];
            && (forall q | 0 <= q < |ns| :: |ns[q]| == Occurrences(cs, q) >= 1)
            && TotalLength(ns) == |cs|
  {
    var k := |normalsOf|;
    var ns, cs := normalsOf + [[n]], corners + [k];
    TotalLengthAppend(normalsOf, [n]);
    OccurrencesAbsent(corners, k);
    forall q | 0 <= q < |ns|
      ensures |ns[q]| == Occurrences(cs, q) >= 1
    {
      OccurrencesAppend(corners, k, q);
    }
  }

  /** One corner with every check passing (src/lib.rs:137-200). */
  function Resolve(m: Mesh, v: Vertex, n: Vertex): (r: Mesh)
    requires Valid(m)
    ensures Valid(r)
    ensures r.corners == m.corners + [IndexFor(m, v)]
    ensures IndexFor(m, v) < |r.verts| && r.verts[IndexFor(m, v)] == v
    ensures v in r.index && r.index[v] == IndexFor(m, v)
    ensures m.verts <= r.verts && |r.verts| <= |m.verts| + 1
    ensures v in m.index <==> |r.verts| == |m.verts|
    ensures r.edges == m.edges && r.edgeKeys == m.edgeKeys
  {
    if v in m.index then Hit(m, m.index[v], n) else Miss(m, v, n)
  }

  /** One edge (src/lib.rs:206-215): written and remembered unless an equal
      edge, in either orientation, was written before. */
  function AddEdge(m: Mesh, e: Edge): (r: Mesh)
    requires Valid(m) && e.a < |m.verts| && e.b < |m.verts|
    ensures Valid(r)
    ensures EdgeHashInput(e) in r.edgeKeys
    ensures EdgeHashInput(e) in m.edgeKeys <==> r.edges == m.edges
    ensures EdgeHashInput(e) !in m.edgeKeys <==> r.edges == m.edges + [e]
    ensures |m.edges| <= |r.edges| <= |m.edges| + 1
    ensures r.index == m.index && r.verts == m.verts && r.normalsOf == m.normalsOf && r.corners == m.corners
  {
    if EdgeHashInput(e) in m.edgeKeys then m
    else
      var r := m.(edgeKeys := m.edgeKeys + {EdgeHashInput(e)}, edges := m.edges + [e]);
      assert KeysOf(r.edges) == KeysOf(m.edges) + {EdgeHashInput(e)};
      assert forall q | 0 <= q < |m.edges| :: EdgeHashInput(m.edges[q]) in m.edgeKeys;
      r
  }

  /** The first `j` corners of triangle `t`. */
  function ResolveCorners(m: Mesh, t: Triangle, j: nat): (r: Mesh)
    requires Valid(m) && j <= 3
    ensures Valid(r)
    ensures |r.corners| == |m.corners| + j && r.corners[..|m.corners|] == m.corners
    ensures m.verts <= r.verts && |r.verts| <= |m.verts| + j
    ensures r.edges == m.edges
    decreases j
  {
    if j == 0 then m else Resolve(ResolveCorners(m, t, j - 1), Corner(t, j - 1), t.normal)
  }

  /** The edges of a triangle with corner indices c0, c1, c2, in the order the
      source tries them (src/lib.rs:206-237). */
  function TriangleEdges(c0: nat, c1: nat, c2: nat): seq<Edge> {
    [Edge(c0, c1), Edge(c1, c2), Edge(c2, c0)]
  }

  /** The edges of every triangle whose corner indices are listed in `cs`,
      three per triangle. */
  function CornerEdges(cs: seq<nat>): (r: seq<Edge>)
    ensures |r| == 3 * (|cs| / 3)
  {
    if |cs| < 3 then []
    else
      var n := |cs|;
      CornerEdges(cs[..n - 3]) + TriangleEdges(cs[n - 3], cs[n - 2], cs[n - 1])
  }

  /** The edge half of a loop iteration (src/lib.rs:202-237): the edges of
      the triangle whose corners are the last three in `v_indices`. */
  function CloseTriangle(m: Mesh): (r: Mesh)
    requires Valid(m) && |m.corners| >= 3
    ensures Valid(r)
    ensures r.index == m.index && r.verts == m.verts && r.normalsOf == m.normalsOf && r.corners == m.corners
    ensures |m.edges| <= |r.edges| <= |m.edges| + 3
  {
    var n := |m.corners|;
    var c0, c1, c2 := m.corners[n - 3], m.corners[n - 2], m.corners[n - 1];
    AddEdge(AddEdge(AddEdge(m, Edge(c0, c1)), Edge(c1, c2)), Edge(c2, c0))
  }

  /** One loop iteration (src/lib.rs:129-240) with every check passing. */
  function AddTriangle(m: Mesh, t: Triangle): (r: Mesh)
    requires Valid(m)
    ensures Valid(r)
    ensures |r.corners| == |m.corners| + 3 && r.corners[..|m.corners|] == m.corners
    ensures m.verts <= r.verts && |r.verts| <= |m.verts| + 3
    ensures |m.edges| <= |r.edges| <= |m.edges| + 3
  {
    CloseTriangle(ResolveCorners(m, t, 3))
  }

  /** The state after the whole loop over `ts`, every check passing. */
  function Build(ts: seq<Triangle>): (r: Mesh)
    ensures Valid(r)
    ensures |r.corners| == 3 * |ts|
    ensures |r.verts| <= 3 * |ts| && |r.edges| <= 3 * |ts|
  {
    if ts == [] then Empty else AddTriangle(Build(ts[..|ts| - 1]), ts[|ts| - 1])
  }

  // ---------------------------------------------------------------------
  // Reference definitions: what the outputs mean, stated without the loop.

  /** The three corner vertices of a triangle, in order. */
  function CornersOf(t: Triangle): seq<Vertex> {
    [t.v0, t.v1, t.v2]
  }

  /** The corner vertices of `ts` in file order. */
  function CornerVertices(ts: seq<Triangle>): (r: seq<Vertex>)
    ensures |r| == 3 * |ts|
  {
    if ts == [] then [] else CornerVertices(ts[..|ts| - 1]) + CornersOf(ts[|ts| - 1])
  }

  /** The face normal belonging to each corner, aligned with `CornerVertices`. */
  function CornerNormals(ts: seq<Triangle>): (r: seq<Vertex>)
    ensures |r| == 3 * |ts|
  {
    if ts == [] then []
    else
      var n := ts[|ts| - 1].normal;
      CornerNormals(ts[..|ts| - 1]) + [n, n, n]
  }

  /** The distinct entries of `s` in order of first appearance. */
  function FirstOccurrences(s: seq<Vertex>): seq<Vertex> {
    if s == [] then []
    else
      var d := FirstOccurrences(s[..|s| - 1]);
      if s[|s| - 1] in d then d else d + [s[|s| - 1]]
  }

  /** The normals of the corners at vertex `v`, in corner order. */
  function NormalsAt(cv: seq<Vertex>, cn: seq<Vertex>, v: Vertex): seq<Vertex>
    requires |cv| == |cn|
  {
    if cv == [] then []
    else
      var n := |cv| - 1;
      NormalsAt(cv[..n], cn[..n], v) + (if cv[n] == v then [cn[n]] else [])
  }

  /** The first edge of each unordered pair in `es`, in order. */
  function FirstEdges(es: seq<Edge>): seq<Edge> {
    if es == [] then []
    else
      var d := FirstEdges(es[..|es| - 1]);
      if EdgeHashInput(es[|es| - 1]) in KeysOf(d) then d else d + [es[|es| - 1]]
  }

  /** The loop state `m` is the one reached after the corners `cv` with face
      normals `cn`. */
  ghost predicate Agrees(m: Mesh, cv: seq<Vertex>, cn: seq<Vertex>) {
    && |cv| == |cn| == |m.corners|
    && |m.normalsOf| == |m.verts|
    && m.verts == FirstOccurrences(cv)
    && (forall p | 0 <= p < |m.corners| :: m.corners[p] < |m.verts| && m.verts[m.corners[p]] == cv[p])
    && (forall k | 0 <= k < |m.verts| :: m.normalsOf[k] == NormalsAt(cv, cn, m.verts[k]))
  }

  lemma {:induction false} FirstOccurrencesMembers(s: seq<Vertex>, x: Vertex)
    ensures x in FirstOccurrences(s) <==> x in s
  {
    if s != [] {
      FirstOccurrencesMembers(s[..|s| - 1], x);
      assert s == s[..|s| - 1] + [s[|s| - 1]];
    }
  }

  lemma {:induction false} NormalsAtAbsent(cv: seq<Vertex>, cn: seq<Vertex>, v: Vertex)
    requires |cv| == |cn| && v !in cv
    ensures NormalsAt(cv, cn, v) == []
  {
    if cv != [] {
      var n := |cv| - 1;
      assert cv[n] in cv;
      assert forall x | x in cv[..n] :: x in cv;
      NormalsAtAbsent(cv[..n], cn[..n], v);
    }
  }

  lemma NormalsAtAppend(cv: seq<Vertex>, cn: seq<Vertex>, v: Vertex, n: Vertex, u: Vertex)
    requires |cv| == |cn|
    ensures NormalsAt(cv + [v], cn + [n], u) == NormalsAt(cv, cn, u) + (if v == u then [n] else [])
  {
    assert (cv + [v])[..|cv|] == cv;
    assert (cn + [n])[..|cn|] == cn;
  }

  lemma VertsDistinct(m: Mesh)
    requires Valid(m)
    ensures forall k, l | 0 <= k < l < |m.verts| :: m.verts[k] != m.verts[l]
  {
    forall k, l | 0 <= k < l < |m.verts| ensures m.verts[k] != m.verts[l] {
      assert m.index[m.verts[k]] == k && m.index[m.verts[l]] == l;
    }
  }

  lemma InIndexIffListed(m: Mesh, v: Vertex)
    requires Valid(m)
    ensures v in m.index <==> v in m.verts
  {
    if v in m.verts {
      var k :| 0 <= k < |m.verts| && m.verts[k] == v;
    }
  }

  lemma FirstOccurrencesAppend(s: seq<Vertex>, x: Vertex)
    ensures FirstOccurrences(s + [x]) ==
            if x in FirstOccurrences(s) then FirstOccurrences(s) else FirstOccurrences(s) + [x]
  {
    assert (s + [x])[..|s|] == s;
  }

  /** One corner keeps the state in step with the corner lists. */
  lemma ResolveAgrees(m: Mesh, cv: seq<Vertex>, cn: seq<Vertex>, v: Vertex, n: Vertex)
    requires Valid(m) && Agrees(m, cv, cn)
    ensures Agrees(Resolve(m, v, n), cv + [v], cn + [n])
  {
    var r := Resolve(m, v, n);
    var cv', cn' := cv + [v], cn + [n];
    InIndexIffListed(m, v);
    FirstOccurrencesMembers(cv, v);
    FirstOccurrencesAppend(cv, v);
    assert r.verts == FirstOccurrences(cv');
    ResolveCornersListed(m, cv, cn, v, n);
    ResolveNormalsAgree(m, cv, cn, v, n);
  }

  lemma ResolveCornersListed(m: Mesh, cv: seq<Vertex>, cn: seq<Vertex>, v: Vertex, n: Vertex)
    requires Valid(m) && Agrees(m, cv, cn)
    ensures var r := Resolve(m, v, n);
            forall p | 0 <= p < |r.corners| :: r.corners[p] < |r.verts| && r.verts[r.corners[p]] == (cv + [v])[p]
  {
    var r := Resolve(m, v, n);
    forall p | 0 <= p < |r.corners|
      ensures r.corners[p] < |r.verts| && r.verts[r.corners[p]] == (cv + [v])[p]
    {
      if p < |m.corners| {
        assert r.corners[p] == m.corners[p];
        assert r.verts[m.corners[p]] == m.verts[m.corners[p]];
      }
    }
  }

  lemma ResolveNormalsAgree(m: Mesh, cv: seq<Vertex>, cn: seq<Vertex>, v: Vertex, n: Vertex)
    requires Valid(m) && Agrees(m, cv, cn)
    ensures var r := Resolve(m, v, n);
            forall k | 0 <= k < |r.verts| :: r.normalsOf[k] == NormalsAt(cv + [v], cn + [n], r.verts[k])
  {
    var r := Resolve(m, v, n);
    VertsDistinct(r);
    InIndexIffListed(m, v);
    FirstOccurrencesMembers(cv, v);
    forall k | 0 <= k < |r.verts|
      ensures r.normalsOf[k] == NormalsAt(cv + [v], cn + [n], r.verts[k])
    {
      NormalsAtAppend(cv, cn, v, n, r.verts[k]);
      if k == |m.verts| {
        NormalsAtAbsent(cv, cn, v);
      } else if v in m.index {
        if k != m.index[v] {
          assert r.verts[k] != r.verts[m.index[v]];
        }
      } else {
        assert r.verts[k] != r.verts[|m.verts|];
      }
    }
  }

  lemma {:induction false} ResolveCornersAgrees(m: Mesh, cv: seq<Vertex>, cn: seq<Vertex>, t: Triangle, j: nat)
    requires Valid(m) && Agrees(m, cv, cn) && j <= 3
    ensures Agrees(ResolveCorners(m, t, j), cv + CornersOf(t)[..j], cn + [t.normal, t.normal, t.normal][..j])
  {
    if j == 0 {
      assert cv + CornersOf(t)[..0] == cv;
      assert cn + [t.normal, t.normal, t.normal][..0] == cn;
    } else {
      var ns := [t.normal, t.normal, t.normal];
      var m' := ResolveCorners(m, t, j - 1);
      var cv1, cn1 := cv + CornersOf(t)[..j - 1], cn + ns[..j - 1];
      ResolveCornersAgrees(m, cv, cn, t, j - 1);
      ResolveAgrees(m', cv1, cn1, Corner(t, j - 1), t.normal);
      ExtendPrefix(cv, CornersOf(t), j);
      ExtendPrefix(cn, ns, j);
    }
  }

  lemma ExtendPrefix<T>(s: seq<T>, u: seq<T>, j: nat)
    requires 0 < j <= |u|
    ensures s + u[..j] == s + u[..j - 1] + [u[j - 1]]
  {
    assert u[..j] == u[..j - 1] + [u[j - 1]];
  }

  lemma FirstEdgesAppend(es: seq<Edge>, e: Edge)
    ensures FirstEdges(es + [e]) ==
            if EdgeHashInput(e) in KeysOf(FirstEdges(es)) then FirstEdges(es) else FirstEdges(es) + [e]
  {
    assert (es + [e])[..|es|] == es;
  }

  lemma AddEdgeAgrees(m: Mesh, es: seq<Edge>, e: Edge)
    requires Valid(m) && e.a < |m.verts| && e.b < |m.verts| && m.edges == FirstEdges(es)
    ensures AddEdge(m, e).edges == FirstEdges(es + [e])
  {
    FirstEdgesAppend(es, e);
  }

  /** One loop iteration keeps the state in step with the corner lists. */
  lemma AddTriangleAgrees(m: Mesh, cv: seq<Vertex>, cn: seq<Vertex>, t: Triangle)
    requires Valid(m) && Agrees(m, cv, cn)
    ensures Agrees(AddTriangle(m, t), cv + CornersOf(t), cn + [t.normal, t.normal, t.normal])
  {
    ResolveThreeAgrees(m, cv, cn, t);
    AgreesIgnoresEdges(ResolveCorners(m, t, 3), AddTriangle(m, t),
                       cv + CornersOf(t), cn + [t.normal, t.normal, t.normal]);
  }

  lemma ResolveThreeAgrees(m: Mesh, cv: seq<Vertex>, cn: seq<Vertex>, t: Triangle)
    requires Valid(m) && Agrees(m, cv, cn)
    ensures Agrees(ResolveCorners(m, t, 3), cv + CornersOf(t), cn + [t.normal, t.normal, t.normal])
  {
    var ns := [t.normal, t.normal, t.normal];
    assert CornersOf(t)[..3] == CornersOf(t);
    assert ns[..3] == ns;
    assert cv + CornersOf(t)[..3] == cv + CornersOf(t);
    assert cn + ns[..3] == cn + ns;
    ResolveCornersAgrees(m, cv, cn, t, 3);
  }

  /** Agreement does not look at the edge set or the edge list. */
  lemma AgreesIgnoresEdges(m: Mesh, m': Mesh, cv: seq<Vertex>, cn: seq<Vertex>)
    requires Agrees(m, cv, cn)
    requires m'.verts == m.verts && m'.normalsOf == m.normalsOf && m'.corners == m.corners
    ensures Agrees(m', cv, cn)
  {
  }

  /** After one loop iteration the edge list is still the distinct edges of
      the triangles so far. */
  lemma AddTriangleEdgesAgree(m: Mesh, t: Triangle)
    requires Valid(m) && m.edges == FirstEdges(CornerEdges(m.corners))
    ensures AddTriangle(m, t).edges == FirstEdges(CornerEdges(AddTriangle(m, t).corners))
  {
    var m3 := ResolveCorners(m, t, 3);
    assert m3.corners[..|m3.corners| - 3] == m.corners;
    CloseTriangleAgrees(m3);
  }

  lemma CloseTriangleAgrees(m: Mesh)
    requires Valid(m) && |m.corners| >= 3
    requires m.edges == FirstEdges(CornerEdges(m.corners[..|m.corners| - 3]))
    ensures CloseTriangle(m).edges == FirstEdges(CornerEdges(m.corners))
  {
    var n := |m.corners|;
    var es := TriangleEdges(m.corners[n - 3], m.corners[n - 2], m.corners[n - 1]);
    var all := CornerEdges(m.corners[..n - 3]);
    assert CornerEdges(m.corners) == all + es;
    var m4 := AddEdge(m, es[0]);
    var m5 := AddEdge(m4, es[1]);
    AddEdgeAgrees(m, all, es[0]);
    AddEdgeAgrees(m4, all + [es[0]], es[1]);
    AddEdgeAgrees(m5, all + [es[0]] + [es[1]], es[2]);
    AppendThree(all, es);
  }

  lemma AppendThree<T>(s: seq<T>, u: seq<T>)
    requires |u| == 3
    ensures s + [u[0]] + [u[1]] + [u[2]] == s + u
  {
    assert u == [u[0], u[1], u[2]];
  }

  lemma {:induction false} BuildAgrees(ts: seq<Triangle>)
    ensures Agrees(Build(ts), CornerVertices(ts), CornerNormals(ts))
    ensures Build(ts).edges == FirstEdges(CornerEdges(Build(ts).corners))
  {
    if ts != [] {
      var pre := ts[..|ts| - 1];
      BuildAgrees(pre);
      AddTriangleAgrees(Build(pre), CornerVertices(pre), CornerNormals(pre), ts[|ts| - 1]);
      AddTriangleEdgesAgree(Build(pre), ts[|ts| - 1]);
    }
  }

  lemma {:induction false} FirstOccurrencesPrefix(s: seq<Vertex>, p: nat)
    requires p <= |s|
    ensures FirstOccurrences(s[..p]) <= FirstOccurrences(s)
  {
    if p < |s| {
      var pre := s[..|s| - 1];
      FirstOccurrencesPrefix(pre, p);
      assert pre[..p] == s[..p];
    } else {
      assert s[..p] == s;
    }
  }

  lemma KeysOfAppend(es: seq<Edge>, e: Edge)
    ensures KeysOf(es + [e]) == KeysOf(es) + {EdgeHashInput(e)}
  {
    forall k | k in KeysOf(es + [e]) ensures k in KeysOf(es) + {EdgeHashInput(e)} {
      var x :| x in es + [e] && EdgeHashInput(x) == k;
      if x != e {
        assert x in es;
      }
    }
    forall k | k in KeysOf(es) ensures k in KeysOf(es + [e]) {
      var x :| x in es && EdgeHashInput(x) == k;
      assert x in es + [e];
    }
    assert e in es + [e];
  }

  /** `FirstEdges` keeps one edge per unordered pair: the same pairs as the
      input, none twice, each an input edge, and no more edges than the input. */
  lemma {:induction false} FirstEdgesFacts(es: seq<Edge>)
    ensures KeysOf(FirstEdges(es)) == KeysOf(es)
    ensures KeysDistinct(FirstEdges(es))
    ensures forall e | e in FirstEdges(es) :: e in es
    ensures |FirstEdges(es)| <= |es|
  {
    if es != [] {
      var pre, x := es[..|es| - 1], es[|es| - 1];
      assert es == pre + [x];
      FirstEdgesFacts(pre);
      KeysOfAppend(pre, x);
      var d := FirstEdges(pre);
      if EdgeHashInput(x) !in KeysOf(d) {
        KeysOfAppend(d, x);
        assert forall q | 0 <= q < |d| :: EdgeHashInput(d[q]) in KeysOf(d);
      }
    }
  }

  // ---------------------------------------------------------------------
  // What the decoded mesh means.

  /** Vertex indices are assigned in order of first appearance: the vertex
      list is the distinct corner vertices in file order, and each entry of
      `v_indices` names the slot holding that corner's vertex. */
  lemma VerticesInFirstAppearanceOrder(ts: seq<Triangle>)
    ensures Build(ts).verts == FirstOccurrences(CornerVertices(ts))
    ensures forall p | 0 <= p < 3 * |ts| ::
              Build(ts).corners[p] < |Build(ts).verts| &&
              Build(ts).verts[Build(ts).corners[p]] == CornerVertices(ts)[p]
  {
    BuildAgrees(ts);
  }

  /** Two corners share an index exactly when their vertices have the same
      bit patterns (src/lib.rs:23-29, 138). */
  lemma SameIndexIffSameBits(ts: seq<Triangle>, p: nat, q: nat)
    requires p < 3 * |ts| && q < 3 * |ts|
    ensures Build(ts).corners[p] == Build(ts).corners[q] <==>
            SameBits(CornerVertices(ts)[p], CornerVertices(ts)[q])
  {
    VerticesInFirstAppearanceOrder(ts);
    VertsDistinct(Build(ts));
  }

  /** A corner whose vertex has not appeared before gets the next unused
      index; a repeated vertex gets an index already handed out
      (src/lib.rs:138-154). */
  lemma NextIndexOnFirstAppearance(ts: seq<Triangle>, p: nat)
    requires p < 3 * |ts|
    ensures var cv := CornerVertices(ts);
            var seen := |FirstOccurrences(cv[..p])|;
            && (cv[p] !in cv[..p] ==> Build(ts).corners[p] == seen)
            && (cv[p] in cv[..p] ==> Build(ts).corners[p] < seen)
  {
    VerticesInFirstAppearanceOrder(ts);
    VertsDistinct(Build(ts));
    SlotOfCorner(Build(ts).verts, CornerVertices(ts), Build(ts).corners[p], p);
  }

  lemma SlotOfCorner(verts: seq<Vertex>, cv: seq<Vertex>, k: nat, p: nat)
    requires verts == FirstOccurrences(cv)
    requires forall i, j | 0 <= i < j < |verts| :: verts[i] != verts[j]
    requires p < |cv| && k < |verts| && verts[k] == cv[p]
    ensures cv[p] !in cv[..p] ==> k == |FirstOccurrences(cv[..p])|
    ensures cv[p] in cv[..p] ==> k < |FirstOccurrences(cv[..p])|
  {
    var before := FirstOccurrences(cv[..p]);
    FirstOccurrencesPrefix(cv, p + 1);
    assert cv[..p + 1] == cv[..p] + [cv[p]];
    FirstOccurrencesAppend(cv[..p], cv[p]);
    FirstOccurrencesMembers(cv[..p], cv[p]);
    if cv[p] !in cv[..p] {
      assert verts[|before|] == cv[p];
    } else {
      var j :| 0 <= j < |before| && before[j] == cv[p];
      assert verts[j] == cv[p];
    }
  }

  /** Normal slot k collects the face normal of every corner at vertex k, in
      file order, so their count (`norm_count[k]`) is the number of corners
      at vertex k: at least one, and 3T in total over all slots
      (src/lib.rs:148-199, 244-246). */
  lemma NormalsCollectedPerVertex(ts: seq<Triangle>)
    ensures var m := Build(ts);
            forall k | 0 <= k < |m.verts| ::
              && m.normalsOf[k] == NormalsAt(CornerVertices(ts), CornerNormals(ts), m.verts[k])
              && |m.normalsOf[k]| == Occurrences(m.corners, k) >= 1
    ensures TotalLength(Build(ts).normalsOf) == 3 * |ts|
  {
    BuildAgrees(ts);
  }

  /** The edge list holds each distinct undirected edge of the triangles once,
      in order of first appearance, and nothing else: every triangle edge is
      in `eset`, no pair is written twice, and there are at most 3T edges
      (src/lib.rs:202-237). */
  lemma EdgesAreDistinctTriangleEdges(ts: seq<Triangle>)
    ensures var m := Build(ts);
            && m.edges == FirstEdges(CornerEdges(m.corners))
            && KeysOf(m.edges) == KeysOf(CornerEdges(m.corners)) == m.edgeKeys
            && KeysDistinct(m.edges)
            && (forall e | e in m.edges :: e in CornerEdges(m.corners))
            && |m.edges| <= 3 * |ts|
  {
    BuildAgrees(ts);
    FirstEdgesFacts(CornerEdges(Build(ts).corners));
  }
}
