/** Two defects of `parse_stl` as written, each exhibited on a concrete
    file, and a corrected decoder with the properties the code evidently
    means to have proved about it.

    1. `norm_count` is sized `t / 2 + 2` (src/lib.rs:126), the vertex count
       of a closed genus-0 mesh. The caller can over-allocate every output
       buffer, but not this internal one, so any file with more distinct
       vertices than that, a single triangle included, is rejected
       (src/lib.rs:191-197).
    2. The writes to `e_indices` are not bound-checked (src/lib.rs:209-237)
       and the preflight asks for `3 * t` entries (src/lib.rs:279-299),
       while up to `6 * t` are written. A file that passes the preflight
       can make the decoder abort. */
module Findings {
  import opened Words
  import opened Geometry
  import opened StlErrors
  import opened StlFormat
  import opened Preflight
  import opened MeshBuild
  import opened ParseSpec

  // ---------------------------------------------------------------------
  // As written.

  /** A file of one triangle with three distinct corners is never decoded,
      whatever the sizes of the caller's buffers: its three vertices do not
      fit the two `norm_count` slots of a one-triangle file. */
  lemma SingleTriangleRejected(header: seq<bv8>, tri: Triangle, attr: Attribute,
                               vLen: nat, nLen: nat, viLen: nat, eLen: nat)
    requires |header| == 80
    requires tri.v0 != tri.v1 && tri.v1 != tri.v2 && tri.v2 != tri.v0
    ensures ParseOutcome(EncodeStl(header, 1, [tri], attr), vLen, nLen, viLen, eLen) != Success
  {
    var buf := EncodeStl(header, 1, [tri], attr);
    DecodeEncode(header, 1, [tri], attr);
    ParseSucceedsIff(buf, vLen, nLen, viLen, eLen);
    assert WordAt(buf, 80) as nat == 1;
    DistinctCornersMakeThreeVertices(tri);
  }

  lemma DistinctCornersMakeThreeVertices(tri: Triangle)
    requires tri.v0 != tri.v1 && tri.v1 != tri.v2 && tri.v2 != tri.v0
    ensures Build([tri]).verts == [tri.v0, tri.v1, tri.v2]
  {
    VerticesInFirstAppearanceOrder([tri]);
    OneTriangleCorners(tri);
    FirstOccurrencesOfThree(tri.v0, tri.v1, tri.v2);
  }

  lemma OneTriangleCorners(tri: Triangle)
    ensures CornerVertices([tri]) == [tri.v0, tri.v1, tri.v2]
  {
    assert [tri][..0] == [];
  }

  lemma FirstOccurrencesOfThree(a: Vertex, b: Vertex, c: Vertex)
    requires a != b && b != c && c != a
    ensures FirstOccurrences([a, b, c]) == [a, b, c]
  {
    FirstOccurrencesAppend([], a);
    assert [] + [a] == [a];
    FirstOccurrencesAppend([a], b);
    assert [a] + [b] == [a, b];
    FirstOccurrencesAppend([a, b], c);
    assert [a, b] + [c] == [a, b, c];
  }

  /** Any triangle with distinct corners a, b, c followed by the degenerate
      triangle (a, a, b), into buffers of 9, 9, 6 and 6 elements: the
      preflight passes, and the decoder aborts writing `e_indices[6]` of 6,
      because the second triangle's edge (0, 0) is new and the first
      triangle's three edges already filled the buffer. */
  lemma PreflightAdmitsPanic(header: seq<bv8>, attr: Attribute, n: Vertex, a: Vertex, b: Vertex, c: Vertex)
    requires |header| == 80
    requires a != b && b != c && c != a
    ensures CheckSufficientMemory(2, 9, 9, 6, 6).None?
    ensures ParseOutcome(EncodeStl(header, 2, [Triangle(n, a, b, c), Triangle(n, a, a, b)], attr), 9, 9, 6, 6)
            == Panic(6, 6)
  {
    var t1, t2 := Triangle(n, a, b, c), Triangle(n, a, a, b);
    EncodedPair(header, attr, [t1, t2]);
    PairPanics(t1, t2, Caps(9, 9, 6, 6, 3));
  }

  /** Decoding a two-triangle file into these buffers runs the loop over
      the two triangles. */
  lemma EncodedPair(header: seq<bv8>, attr: Attribute, ts: seq<Triangle>)
    requires |header| == 80 && |ts| == 2
    ensures ParseOutcome(EncodeStl(header, 2, ts, attr), 9, 9, 6, 6) == Finish(Run(ts, Caps(9, 9, 6, 6, 3)))
  {
    var buf := EncodeStl(header, 2, ts, attr);
    DecodeEncode(header, 2, ts, attr);
    OutcomeOnceAdmitted(buf, 2, ts, 9, 9, 6, 6);
  }

  /** The loop over the two triangles aborts in the second one. */
  lemma PairPanics(t1: Triangle, t2: Triangle, caps: Caps)
    requires t1.v0 != t1.v1 && t1.v1 != t1.v2 && t1.v2 != t1.v0
    requires t2.v0 == t2.v1 == t1.v0 && t2.v2 == t1.v1
    requires caps == Caps(9, 9, 6, 6, 3)
    ensures Run([t1, t2], caps) == Stop(Panic(6, 6))
  {
    var ts := [t1, t2];
    assert ts[..1] == [t1];
    FirstFaceFits(t1, caps);
    RunOfTwo(ts, caps);
    SecondFacePanics(t1, t2, caps);
  }

  /** The first triangle gets through the loop. */
  lemma FirstFaceFits(t1: Triangle, caps: Caps)
    requires t1.v0 != t1.v1 && t1.v1 != t1.v2 && t1.v2 != t1.v0
    requires caps == Caps(9, 9, 6, 6, 3)
    ensures Run([t1], caps).Continue?
  {
    FirstFaceState(t1);
    RunSucceedsIffFits([t1], caps);
  }

  /** The loop over two triangles is the second step after the first. */
  lemma RunOfTwo(ts: seq<Triangle>, caps: Caps)
    requires |ts| == 2 && Run(ts[..1], caps).Continue?
    ensures Run(ts, caps) == TriangleStep(Build(ts[..1]), ts[1], 1, caps)
  {
  }

  /** A file whose header and size checks pass, decoded into buffers that
      pass the preflight, runs the loop over its triangles. */
  lemma OutcomeOnceAdmitted(buf: seq<bv8>, t: nat, ts: seq<Triangle>, vLen: nat, nLen: nat, viLen: nat, eLen: nat)
    requires ReadHeader(buf) == Ok(t) && DeclaredSizeCheck(t, |buf|).None?
    requires Triangles(buf, t) == ts && Adequate(t, vLen, nLen, viLen, eLen)
    ensures ParseOutcome(buf, vLen, nLen, viLen, eLen) == Finish(Run(ts, Caps(vLen, nLen, viLen, eLen, t / 2 + 2)))
  {
  }

  /** After a first triangle with distinct corners: vertices 0, 1, 2 and
      the three edges between them. */
  lemma FirstFaceState(t1: Triangle)
    requires t1.v0 != t1.v1 && t1.v1 != t1.v2 && t1.v2 != t1.v0
    ensures var m := Build([t1]);
            && m.verts == [t1.v0, t1.v1, t1.v2] && m.corners == [0, 1, 2]
            && |m.edges| == 3 && (0, 0) !in m.edgeKeys
  {
    var m := Build([t1]);
    DistinctCornersMakeThreeVertices(t1);
    FirstFaceCorners(t1);
    BuildAgrees([t1]);
    assert CornerEdges([0, 1, 2]) == TriangleEdges(0, 1, 2) by {
      assert [0, 1, 2][..0] == [];
    }
    FirstFaceEdges();
  }

  lemma FirstFaceCorners(t1: Triangle)
    requires t1.v0 != t1.v1 && t1.v1 != t1.v2 && t1.v2 != t1.v0
    ensures Build([t1]).corners == [0, 1, 2]
  {
    DistinctCornersMakeThreeVertices(t1);
    VerticesInFirstAppearanceOrder([t1]);
    OneTriangleCorners(t1);
    SlotsOfDistinct(Build([t1]).corners, [t1.v0, t1.v1, t1.v2]);
  }

  /** Corners whose slots hold their own vertices, in a list of three
      distinct vertices, are at slots 0, 1, 2. */
  lemma SlotsOfDistinct(cs: seq<nat>, vs: seq<Vertex>)
    requires |cs| == 3 && |vs| == 3 && vs[0] != vs[1] && vs[1] != vs[2] && vs[2] != vs[0]
    requires forall p | 0 <= p < 3 :: cs[p] < |vs| && vs[cs[p]] == vs[p]
    ensures cs == [0, 1, 2]
  {
  }

  /** The second triangle (a, a, b) resolves to indices 0, 0, 1 without a
      miss; its first edge (0, 0) is new while the buffer of 6 is full. */
  lemma SecondFacePanics(t1: Triangle, t2: Triangle, caps: Caps)
    requires t1.v0 != t1.v1 && t1.v1 != t1.v2 && t1.v2 != t1.v0
    requires t2.v0 == t2.v1 == t1.v0 && t2.v2 == t1.v1
    requires caps == Caps(9, 9, 6, 6, 3)
    ensures TriangleStep(Build([t1]), t2, 1, caps) == Stop(Panic(6, 6))
  {
    var m1 := Build([t1]);
    var m3 := ResolveCorners(m1, t2, 3);
    FirstFaceState(t1);
    SecondFaceCorners(t1, t2);
    RunCornersIff(m1, t2, 1, 3, caps);
    FullBufferPanics(m3, caps);
  }

  /** The state after the second triangle's corners. */
  lemma SecondFaceCorners(t1: Triangle, t2: Triangle)
    requires t1.v0 != t1.v1 && t1.v1 != t1.v2 && t1.v2 != t1.v0
    requires t2.v0 == t2.v1 == t1.v0 && t2.v2 == t1.v1
    ensures var m3 := ResolveCorners(Build([t1]), t2, 3);
            && |m3.verts| == 3 && |m3.corners| == 6 && m3.corners[3] == 0 && m3.corners[4] == 0
            && |m3.edges| == 3 && (0, 0) !in m3.edgeKeys
  {
    var m1 := Build([t1]);
    var m3 := ResolveCorners(m1, t2, 3);
    SecondFaceAgrees(t1, t2);
    assert CornersOf(t2) == [t1.v0, t1.v0, t1.v1];
    RepeatedSlots(m3, t1.v0, t1.v1, t1.v2, CornerNormals([t1]) + [t2.normal, t2.normal, t2.normal]);
    FirstFaceState(t1);
    CornersKeepEdges(m1, t2);
  }

  /** A state in step with the corners a, b, c, a, a, b has three vertices,
      and its fourth and fifth corners are at slot 0. */
  lemma RepeatedSlots(m: Mesh, a: Vertex, b: Vertex, c: Vertex, cn: seq<Vertex>)
    requires a != b && b != c && c != a
    requires Agrees(m, [a, b, c] + [a, a, b], cn)
    ensures |m.verts| == 3 && |m.corners| == 6 && m.corners[3] == 0 && m.corners[4] == 0
  {
    RepeatedCornersAddNothing(a, b, c);
    SlotsOfRepeated(m.corners, m.verts, [a, b, c] + [a, a, b]);
  }

  /** Resolving corners leaves the edge set alone. */
  lemma CornersKeepEdges(m: Mesh, t: Triangle)
    requires Valid(m)
    ensures ResolveCorners(m, t, 3).edges == m.edges && ResolveCorners(m, t, 3).edgeKeys == m.edgeKeys
  {
  }

  lemma SecondFaceAgrees(t1: Triangle, t2: Triangle)
    ensures Agrees(ResolveCorners(Build([t1]), t2, 3), [t1.v0, t1.v1, t1.v2] + CornersOf(t2),
                   CornerNormals([t1]) + [t2.normal, t2.normal, t2.normal])
  {
    BuildAgrees([t1]);
    OneTriangleCorners(t1);
    ResolveThreeAgrees(Build([t1]), CornerVertices([t1]), CornerNormals([t1]), t2);
  }

  /** Six corners whose first three vertices are distinct and fill the
      vertex list, the fourth and fifth repeating the first: the fourth and
      fifth corners are at slot 0. */
  lemma SlotsOfRepeated(cs: seq<nat>, vs: seq<Vertex>, cv: seq<Vertex>)
    requires |cs| == 6 && |cv| == 6 && vs == [cv[0], cv[1], cv[2]]
    requires cv[0] != cv[1] && cv[1] != cv[2] && cv[2] != cv[0] && cv[3] == cv[0] && cv[4] == cv[0]
    requires forall p | 0 <= p < |cs| :: cs[p] < |vs| && vs[cs[p]] == cv[p]
    ensures cs[3] == 0 && cs[4] == 0
  {
    assert vs[cs[3]] == cv[3] && vs[cs[4]] == cv[4];
  }

  /** With six `e_indices` entries already written and a new edge (0, 0)
      next, the write at index 6 of 6 aborts. */
  lemma FullBufferPanics(m: Mesh, caps: Caps)
    requires Valid(m) && |m.corners| == 6 && m.corners[3] == 0 && m.corners[4] == 0
    requires |m.edges| == 3 && (0, 0) !in m.edgeKeys && caps.eIndices == 6
    ensures RunEdges(m, caps) == Stop(Panic(6, 6))
  {
    assert EdgeFault(m, Edge(0, 0), caps) == Some(Panic(6, 6));
  }

  /** Corners at vertices already seen add nothing to the first-appearance list. */
  lemma RepeatedCornersAddNothing(a: Vertex, b: Vertex, c: Vertex)
    requires a != b && b != c && c != a
    ensures FirstOccurrences([a, b, c] + [a, a, b]) == [a, b, c]
  {
    var u := [a, b, c];
    FirstOccurrencesOfThree(a, b, c);
    FirstOccurrencesAppend(u, a);
    FirstOccurrencesAppend(u + [a], a);
    FirstOccurrencesAppend(u + [a] + [a], b);
    assert u + [a] + [a] + [b] == u + [a, a, b];
  }

  /** The first triangle's three edges are all kept. */
  lemma FirstFaceEdges()
    ensures FirstEdges(TriangleEdges(0, 1, 2)) == TriangleEdges(0, 1, 2)
    ensures (0, 0) !in KeysOf(TriangleEdges(0, 1, 2))
  {
    NoLoopKey(TriangleEdges(0, 1, 2));
    var e0, e1, e2 := Edge(0, 1), Edge(1, 2), Edge(2, 0);
    FirstEdgesAppend([], e0);
    assert [] + [e0] == [e0];
    KeysOfAppend([], e0);
    FirstEdgesAppend([e0], e1);
    KeysOfAppend([e0], e1);
    assert [e0] + [e1] == [e0, e1];
    FirstEdgesAppend([e0, e1], e2);
    assert [e0, e1] + [e2] == TriangleEdges(0, 1, 2);
  }

  /** Edges that join distinct vertices never hash like the edge (0, 0). */
  lemma NoLoopKey(es: seq<Edge>)
    requires forall e | e in es :: e.a != e.b
    ensures (0, 0) !in KeysOf(es)
  {
    assert forall e | e in es :: EdgeHashInput(e) != (0, 0);
  }

  // ---------------------------------------------------------------------
  // Corrected.

  /** Edge-index entries needed: two for each of up to three new edges per
      triangle. */
  function EdgeSlots(t: nat): nat {
    6 * t
  }

  /** The preflight with the edge-index requirement raised to what the loop
      can write; the other three checks are the source's. */
  function CorrectedPreflight(t: nat, vLen: nat, nLen: nat, viLen: nat, eLen: nat): (r: Option<ParseError>)
    ensures r.None? <==> Adequate(t, vLen, nLen, viLen, eLen) && eLen >= EdgeSlots(t)
    ensures r.Some? ==> r.value.InsufficientBuffer? && r.value.triangles == t
    ensures r.Some? && r.value.buffer != EdgeIndices ==> r == CheckSufficientMemory(t, vLen, nLen, viLen, eLen)
    ensures r.Some? && r.value.buffer == EdgeIndices ==> r.value == InsufficientBuffer(EdgeIndices, eLen, EdgeSlots(t), t)
  {
    if vLen < VertexSlots(t) then Some(InsufficientBuffer(Vertices, vLen, VertexSlots(t), t))
    else if nLen < VertexSlots(t) then Some(InsufficientBuffer(Normals, nLen, VertexSlots(t), t))
    else if viLen < IndexSlots(t) then Some(InsufficientBuffer(VertexIndices, viLen, IndexSlots(t), t))
    else if eLen < EdgeSlots(t) then Some(InsufficientBuffer(EdgeIndices, eLen, EdgeSlots(t), t))
    else None
  }

  /** `parse_stl` with both corrections: the corrected preflight, and a
      `norm_count` with one slot per vertex slot the caller provided. */
  function CorrectedOutcome(buf: seq<bv8>, vLen: nat, nLen: nat, viLen: nat, eLen: nat): (r: Outcome)
    ensures r == Success ==>
              && |buf| >= 84 && FrameOffset(WordAt(buf, 80) as nat) <= |buf|
              && CorrectedPreflight(WordAt(buf, 80) as nat, vLen, nLen, viLen, eLen).None?
  {
    match ReadHeader(buf)
    case Err(e) => Failure(e)
    case Ok(t) =>
      match DeclaredSizeCheck(t, |buf|)
      case Some(e) => Failure(e)
      case None =>
        match CorrectedPreflight(t, vLen, nLen, viLen, eLen)
        case Some(e) => Failure(e)
        case None => Finish(Run(Triangles(buf, t), Caps(vLen, nLen, viLen, eLen, vLen / 3)))
  }

  /** The corrected decoder accepts a file exactly when it is complete, the
      buffers pass the corrected preflight, and the distinct vertices fit the
      vertex and normal buffers: the triangle count no longer bounds the
      vertex count, and the edges always fit. */
  lemma CorrectedSucceedsIff(buf: seq<bv8>, vLen: nat, nLen: nat, viLen: nat, eLen: nat)
    ensures CorrectedOutcome(buf, vLen, nLen, viLen, eLen) == Success <==>
            && |buf| >= 84
            && var t := WordAt(buf, 80) as nat;
               && FrameOffset(t) <= |buf|
               && CorrectedPreflight(t, vLen, nLen, viLen, eLen).None?
               && var m := Build(Triangles(buf, t));
                  3 * |m.verts| <= vLen && 3 * |m.verts| <= nLen
  {
    if |buf| >= 84 {
      var t := WordAt(buf, 80) as nat;
      assert ReadHeader(buf) == Ok(t);
      if FrameOffset(t) <= |buf| && CorrectedPreflight(t, vLen, nLen, viLen, eLen).None? {
        var ts := Triangles(buf, t);
        assert CorrectedOutcome(buf, vLen, nLen, viLen, eLen) == Finish(Run(ts, Caps(vLen, nLen, viLen, eLen, vLen / 3)));
        CorrectedLoopSucceedsIff(ts, vLen, nLen, viLen, eLen);
      } else {
        assert CorrectedOutcome(buf, vLen, nLen, viLen, eLen) != Success;
      }
    } else {
      assert CorrectedOutcome(buf, vLen, nLen, viLen, eLen) != Success;
    }
  }

  /** After the corrected preflight only the vertex count can stop the loop. */
  lemma CorrectedLoopSucceedsIff(ts: seq<Triangle>, vLen: nat, nLen: nat, viLen: nat, eLen: nat)
    requires CorrectedPreflight(|ts|, vLen, nLen, viLen, eLen).None?
    ensures Finish(Run(ts, Caps(vLen, nLen, viLen, eLen, vLen / 3))) == Success <==>
            3 * |Build(ts).verts| <= vLen && 3 * |Build(ts).verts| <= nLen
  {
    var caps := Caps(vLen, nLen, viLen, eLen, vLen / 3);
    RunSucceedsIffFits(ts, caps);
    RunNeverEarly(ts, caps);
  }

  /** With both corrections a one-triangle file with distinct corners is
      decoded into buffers of 9, 9, 3 and 6 elements. */
  lemma CorrectedAcceptsSingleTriangle(header: seq<bv8>, tri: Triangle, attr: Attribute)
    requires |header| == 80
    requires tri.v0 != tri.v1 && tri.v1 != tri.v2 && tri.v2 != tri.v0
    ensures CorrectedOutcome(EncodeStl(header, 1, [tri], attr), 9, 9, 3, 6) == Success
  {
    var buf := EncodeStl(header, 1, [tri], attr);
    DecodeEncode(header, 1, [tri], attr);
    assert WordAt(buf, 80) as nat == 1;
    DistinctCornersMakeThreeVertices(tri);
    CorrectedSucceedsIff(buf, 9, 9, 3, 6);
  }

  /** The edge half of a triangle cannot abort while six entries are free. */
  lemma RunEdgesWithRoom(m: Mesh, caps: Caps)
    requires Valid(m) && |m.corners| >= 3 && 2 * |m.edges| + 6 <= caps.eIndices
    ensures RunEdges(m, caps).Continue?
  {
    var n := |m.corners|;
    var c0, c1, c2 := m.corners[n - 3], m.corners[n - 2], m.corners[n - 1];
    var m1 := AddEdge(m, Edge(c0, c1));
    var m2 := AddEdge(m1, Edge(c1, c2));
    assert EdgeFault(m, Edge(c0, c1), caps).None?;
    assert EdgeFault(m1, Edge(c1, c2), caps).None?;
    assert EdgeFault(m2, Edge(c2, c0), caps).None?;
  }

  /** The loop never aborts when `e_indices` has six entries per triangle. */
  lemma {:induction false} NoPanicWithRoom(ts: seq<Triangle>, caps: Caps)
    requires EdgeSlots(|ts|) <= caps.eIndices
    ensures !(Run(ts, caps).Stop? && Run(ts, caps).outcome.Panic?)
  {
    if ts != [] {
      var pre := ts[..|ts| - 1];
      NoPanicWithRoom(pre, caps);
      if Run(pre, caps).Continue? {
        var m := Build(pre);
        var last := ts[|ts| - 1];
        if RunCorners(m, last, |pre|, 3, caps).Continue? {
          RunEdgesWithRoom(ResolveCorners(m, last, 3), caps);
        }
      }
    }
  }

  /** Once the corrected preflight passes, the unchecked `e_indices` writes
      stay in bounds: the corrected decoder never aborts. */
  lemma CorrectedNeverPanics(buf: seq<bv8>, vLen: nat, nLen: nat, viLen: nat, eLen: nat)
    ensures !CorrectedOutcome(buf, vLen, nLen, viLen, eLen).Panic?
  {
    var r := CorrectedOutcome(buf, vLen, nLen, viLen, eLen);
    if |buf| < 84 {
      assert r.Failure?;
    } else {
      var t := WordAt(buf, 80) as nat;
      assert ReadHeader(buf) == Ok(t);
      if FrameOffset(t) > |buf| {
        assert r == Failure(SizeMismatch(t, |buf|));
      } else if CorrectedPreflight(t, vLen, nLen, viLen, eLen).Some? {
        assert r == Failure(CorrectedPreflight(t, vLen, nLen, viLen, eLen).value);
      } else {
        var ts, caps := Triangles(buf, t), Caps(vLen, nLen, viLen, eLen, vLen / 3);
        assert r == Finish(Run(ts, caps));
        NoPanicWithRoom(ts, caps);
      }
    }
  }
}
