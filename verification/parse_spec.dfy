/** `parse_stl` (src/lib.rs:80-249) as a function: the header checks, the
    declared-size check, the preflight, then the loop over the triangles with
    every in-loop bound check in the source's order, the first failing check
    ending the run. `Run` performs the steps of `MeshBuild.Build` and stops at
    the first failing check; `RunSucceedsIffFits` says exactly when it gets
    through. */
module ParseSpec {
  import opened Words
  import opened Geometry
  import opened StlErrors
  import opened StlFormat
  import opened Preflight
  import opened MeshBuild

  /** Lengths of the four output buffers and of `norm_count`. */
  datatype Caps = Caps(vertices: nat, normals: nat, vIndices: nat, eIndices: nat, counts: nat)

  /** The state after a step, or how the call ended. */
  datatype Step = Continue(m: Mesh) | Stop(outcome: Outcome)

  /** The first check that fails for corner j of triangle i at vertex `v`
      (src/lib.rs:138-198): on a hit the normal slot; on a miss the vertex
      slot, then the normal slot; then the `v_indices` slot; then the
      `norm_count` slot. The number kept is the one the message reports. */
  function CornerFault(m: Mesh, v: Vertex, i: nat, j: nat, caps: Caps): (r: Option<ParseError>)
    ensures r.Some? ==> r.value.BoundExceeded? && r.value.triangle == i
  {
    var k := IndexFor(m, v);
    if v in m.index && 3 * k + 2 >= caps.normals then Some(BoundExceeded(Normals, 3 * k + 2, caps.normals, i))
    else if v !in m.index && 3 * k + 2 >= caps.vertices then Some(BoundExceeded(Vertices, 3 * k, caps.vertices, i))
    else if v !in m.index && 3 * k + 2 >= caps.normals then Some(BoundExceeded(Normals, 3 * k, caps.normals, i))
    else if 3 * i + j >= caps.vIndices then Some(BoundExceeded(VertexIndices, 3 * i + j, caps.vIndices, i))
    else if k >= caps.counts then Some(BoundExceeded(NormCount, k, caps.counts, i))
    else None
  }

  /** The first `j` corners of triangle `i`, stopping at the first failing
      check; when none fails the state is the one `ResolveCorners` builds. */
  function RunCorners(m: Mesh, t: Triangle, i: nat, j: nat, caps: Caps): (r: Step)
    requires Valid(m) && j <= 3
    ensures r.Continue? ==> r.m == ResolveCorners(m, t, j)
    ensures r.Stop? ==> r.outcome.Failure? && r.outcome.error.BoundExceeded? && r.outcome.error.triangle == i
    decreases j
  {
    if j == 0 then Continue(m)
    else
      match RunCorners(m, t, i, j - 1, caps)
      case Stop(o) => Stop(o)
      case Continue(_) =>
        var f := CornerFault(ResolveCorners(m, t, j - 1), Corner(t, j - 1), i, j - 1, caps);
        if f.Some? then Stop(Failure(f.value)) else Continue(ResolveCorners(m, t, j))
  }

  /** A new edge is written to e_indices[epos] and e_indices[epos + 1] with no
      bound check: an index past the end aborts (src/lib.rs:210-215). */
  function EdgeFault(m: Mesh, e: Edge, caps: Caps): (r: Option<Outcome>)
    ensures r.Some? ==> r.value.Panic? && r.value.index >= r.value.len == caps.eIndices
  {
    var epos := 2 * |m.edges|;
    if EdgeHashInput(e) in m.edgeKeys then None
    else if epos >= caps.eIndices then Some(Panic(epos, caps.eIndices))
    else if epos + 1 >= caps.eIndices then Some(Panic(epos + 1, caps.eIndices))
    else None
  }

  /** The three edges of the triangle just resolved (src/lib.rs:202-237), each
      tried on the state the previous ones left; when none aborts the state is
      the one `CloseTriangle` builds. */
  function RunEdges(m: Mesh, caps: Caps): (r: Step)
    requires Valid(m) && |m.corners| >= 3
    ensures r.Continue? ==> r.m == CloseTriangle(m)
    ensures r.Stop? ==> r.outcome.Panic?
  {
    var n := |m.corners|;
    var c0, c1, c2 := m.corners[n - 3], m.corners[n - 2], m.corners[n - 1];
    assert c0 < |m.verts| && c1 < |m.verts| && c2 < |m.verts|;
    var m1 := AddEdge(m, Edge(c0, c1));
    var m2 := AddEdge(m1, Edge(c1, c2));
    match EdgeFault(m, Edge(c0, c1), caps)
    case Some(o) => Stop(o)
    case None =>
      match EdgeFault(m1, Edge(c1, c2), caps)
      case Some(o) => Stop(o)
      case None =>
        match EdgeFault(m2, Edge(c2, c0), caps)
        case Some(o) => Stop(o)
        case None => Continue(CloseTriangle(m))
  }

  /** Iteration `i` of the loop (src/lib.rs:129-240). */
  function TriangleStep(m: Mesh, t: Triangle, i: nat, caps: Caps): (r: Step)
    requires Valid(m)
    ensures r.Continue? ==> r.m == AddTriangle(m, t)
    ensures InLoopStop(r)
  {
    match RunCorners(m, t, i, 3, caps)
    case Stop(o) => Stop(o)
    case Continue(_) =>
      match RunEdges(ResolveCorners(m, t, 3), caps)
      case Stop(o) => Stop(o)
      case Continue(_) => Continue(AddTriangle(m, t))
  }

  /** The loop over all of `ts` (src/lib.rs:128-240). */
  function Run(ts: seq<Triangle>, caps: Caps): (r: Step)
    ensures r.Continue? ==> r.m == Build(ts)
  {
    if ts == [] then Continue(Empty)
    else
      match Run(ts[..|ts| - 1], caps)
      case Stop(o) => Stop(o)
      case Continue(_) => TriangleStep(Build(ts[..|ts| - 1]), ts[|ts| - 1], |ts| - 1, caps)
  }

  /** How a run ends: `Success` once the loop and the division pass are done. */
  function Finish(s: Step): Outcome {
    match s
    case Continue(_) => Success
    case Stop(o) => o
  }

  /** `parse_stl` on a file and buffers of the given lengths, as written:
      `norm_count` holds `t / 2 + 2` counters (src/lib.rs:126). */
  function ParseOutcome(buf: seq<bv8>, vLen: nat, nLen: nat, viLen: nat, eLen: nat): (r: Outcome)
    ensures r == Success ==>
              && |buf| >= 84 && FrameOffset(WordAt(buf, 80) as nat) <= |buf|
              && Adequate(WordAt(buf, 80) as nat, vLen, nLen, viLen, eLen)
  {
    match ReadHeader(buf)
    case Err(e) => Failure(e)
    case Ok(t) =>
      match DeclaredSizeCheck(t, |buf|)
      case Some(e) => Failure(e)
      case None =>
        match CheckSufficientMemory(t, vLen, nLen, viLen, eLen)
        case Some(e) => Failure(e)
        case None => Finish(Run(Triangles(buf, t), Caps(vLen, nLen, viLen, eLen, t / 2 + 2)))
  }

  // ---------------------------------------------------------------------
  // When the run gets through.

  /** The state fits the buffers: every vertex slot, corner index, counter and
      edge pair written so far lies inside its buffer. */
  predicate Fits(m: Mesh, caps: Caps) {
    && 3 * |m.verts| <= caps.vertices
    && 3 * |m.verts| <= caps.normals
    && |m.corners| <= caps.vIndices
    && |m.verts| <= caps.counts
    && 2 * |m.edges| <= caps.eIndices
  }

  /** The checks on one corner pass exactly when the state after it still fits. */
  lemma CornerFaultIff(m: Mesh, v: Vertex, n: Vertex, i: nat, j: nat, caps: Caps)
    requires Valid(m) && Fits(m, caps) && |m.corners| == 3 * i + j
    ensures CornerFault(m, v, i, j, caps).None? <==> Fits(Resolve(m, v, n), caps)
  {
    if v in m.index {
      assert m.index[v] < |m.verts|;
    }
  }

  lemma {:induction false} RunCornersIff(m: Mesh, t: Triangle, i: nat, j: nat, caps: Caps)
    requires Valid(m) && Fits(m, caps) && |m.corners| == 3 * i && j <= 3
    ensures RunCorners(m, t, i, j, caps).Continue? <==> Fits(ResolveCorners(m, t, j), caps)
  {
    if j > 0 {
      RunCornersIff(m, t, i, j - 1, caps);
      var m' := ResolveCorners(m, t, j - 1);
      if RunCorners(m, t, i, j - 1, caps).Continue? {
        CornerFaultIff(m', Corner(t, j - 1), t.normal, i, j - 1, caps);
      }
    }
  }

  /** The writes of one edge stay inside e_indices exactly when the state
      after it still fits. */
  lemma EdgeFaultIff(m: Mesh, e: Edge, caps: Caps)
    requires Valid(m) && Fits(m, caps) && e.a < |m.verts| && e.b < |m.verts|
    ensures EdgeFault(m, e, caps).None? <==> Fits(AddEdge(m, e), caps)
  {
  }

  /** The edge writes stay inside e_indices exactly when the state after the
      triangle's three edges still fits. */
  lemma RunEdgesIff(m: Mesh, caps: Caps)
    requires Valid(m) && Fits(m, caps) && |m.corners| >= 3
    ensures RunEdges(m, caps).Continue? <==> Fits(CloseTriangle(m), caps)
  {
    var n := |m.corners|;
    var c0, c1, c2 := m.corners[n - 3], m.corners[n - 2], m.corners[n - 1];
    var m1 := AddEdge(m, Edge(c0, c1));
    var m2 := AddEdge(m1, Edge(c1, c2));
    EdgeFaultIff(m, Edge(c0, c1), caps);
    if Fits(m1, caps) {
      EdgeFaultIff(m1, Edge(c1, c2), caps);
      if Fits(m2, caps) {
        EdgeFaultIff(m2, Edge(c2, c0), caps);
      }
    }
  }

  lemma TriangleStepIff(m: Mesh, t: Triangle, i: nat, caps: Caps)
    requires Valid(m) && Fits(m, caps) && |m.corners| == 3 * i
    ensures TriangleStep(m, t, i, caps).Continue? <==> Fits(AddTriangle(m, t), caps)
  {
    RunCornersIff(m, t, i, 3, caps);
    var m3 := ResolveCorners(m, t, 3);
    if Fits(m3, caps) {
      RunEdgesIff(m3, caps);
    }
  }

  /** The loop gets through exactly when the ideal result of `Build` fits the
      buffers; when it does, its state is that result. Which check fails
      first only decides the error reported, not whether one is. */
  lemma {:induction false} RunSucceedsIffFits(ts: seq<Triangle>, caps: Caps)
    ensures Run(ts, caps).Continue? <==> Fits(Build(ts), caps)
    ensures Run(ts, caps).Continue? ==> Run(ts, caps).m == Build(ts)
  {
    if ts != [] {
      var pre, last := ts[..|ts| - 1], ts[|ts| - 1];
      RunSucceedsIffFits(pre, caps);
      var m := Build(pre);
      assert Build(ts) == AddTriangle(m, last);
      if Run(pre, caps).Continue? {
        assert Run(ts, caps) == TriangleStep(m, last, |pre|, caps);
        TriangleStepIff(m, last, |pre|, caps);
      } else {
        assert Run(ts, caps).Stop?;
        assert !Fits(m, caps);
      }
    }
  }

  /** `parse_stl` returns `None` exactly when the header is complete, the file
      holds the declared frames, the four buffers pass the preflight, the mesh
      has at most `t / 2 + 2` distinct vertices and e_indices holds two
      entries per distinct edge. Once the preflight passes, the vertex,
      normal and `v_indices` bounds cannot be what fails. */
  lemma ParseSucceedsIff(buf: seq<bv8>, vLen: nat, nLen: nat, viLen: nat, eLen: nat)
    ensures ParseOutcome(buf, vLen, nLen, viLen, eLen) == Success <==>
            && |buf| >= 84
            && var t := WordAt(buf, 80) as nat;
               && FrameOffset(t) <= |buf|
               && Adequate(t, vLen, nLen, viLen, eLen)
               && var m := Build(Triangles(buf, t));
                  |m.verts| <= t / 2 + 2 && 2 * |m.edges| <= eLen
  {
    if |buf| >= 84 {
      var t := WordAt(buf, 80) as nat;
      assert ReadHeader(buf) == Ok(t);
      if FrameOffset(t) <= |buf| && Adequate(t, vLen, nLen, viLen, eLen) {
        var ts := Triangles(buf, t);
        var caps := Caps(vLen, nLen, viLen, eLen, t / 2 + 2);
        assert ParseOutcome(buf, vLen, nLen, viLen, eLen) == Finish(Run(ts, caps));
        LoopSucceedsIff(ts, t, vLen, nLen, viLen, eLen);
      } else {
        assert ParseOutcome(buf, vLen, nLen, viLen, eLen) != Success;
      }
    } else {
      assert ParseOutcome(buf, vLen, nLen, viLen, eLen) != Success;
    }
  }

  lemma LoopSucceedsIff(ts: seq<Triangle>, t: nat, vLen: nat, nLen: nat, viLen: nat, eLen: nat)
    requires Adequate(t, vLen, nLen, viLen, eLen) && |ts| == t
    ensures Finish(Run(ts, Caps(vLen, nLen, viLen, eLen, t / 2 + 2))) == Success <==>
            |Build(ts).verts| <= t / 2 + 2 && 2 * |Build(ts).edges| <= eLen
  {
    var caps := Caps(vLen, nLen, viLen, eLen, t / 2 + 2);
    RunSucceedsIffFits(ts, caps);
    var m := Build(ts);
    FitsAfterPreflight(m, t, vLen, nLen, viLen, eLen);
    RunNeverEarly(ts, caps);
  }

  /** Once the preflight passes, only the vertex count and the edge count can
      make the state not fit. */
  lemma FitsAfterPreflight(m: Mesh, t: nat, vLen: nat, nLen: nat, viLen: nat, eLen: nat)
    requires Adequate(t, vLen, nLen, viLen, eLen) && |m.corners| == 3 * t
    ensures Fits(m, Caps(vLen, nLen, viLen, eLen, t / 2 + 2)) <==> |m.verts| <= t / 2 + 2 && 2 * |m.edges| <= eLen
  {
  }

  /** The errors before the loop come in the source's order: each is reported
      exactly when its check fails and every earlier one passed
      (src/lib.rs:87-118). */
  lemma EarlyErrorsInOrder(buf: seq<bv8>, vLen: nat, nLen: nat, viLen: nat, eLen: nat)
    ensures |buf| < 80 <==> ParseOutcome(buf, vLen, nLen, viLen, eLen) == Failure(HeaderTooSmall)
    ensures 80 <= |buf| < 84 <==> ParseOutcome(buf, vLen, nLen, viLen, eLen) == Failure(CountMissing)
    ensures |buf| >= 84 ==>
              var t := WordAt(buf, 80) as nat;
              && (FrameOffset(t) > |buf| <==>
                    ParseOutcome(buf, vLen, nLen, viLen, eLen) == Failure(SizeMismatch(t, |buf|)))
              && (FrameOffset(t) <= |buf| && !Adequate(t, vLen, nLen, viLen, eLen) ==>
                    ParseOutcome(buf, vLen, nLen, viLen, eLen)
                    == Failure(CheckSufficientMemory(t, vLen, nLen, viLen, eLen).value))
  {
    if |buf| >= 84 {
      var t := WordAt(buf, 80) as nat;
      if FrameOffset(t) <= |buf| && Adequate(t, vLen, nLen, viLen, eLen) {
        var ts := Triangles(buf, t);
        var caps := Caps(vLen, nLen, viLen, eLen, t / 2 + 2);
        assert ParseOutcome(buf, vLen, nLen, viLen, eLen) == Finish(Run(ts, caps));
        RunNeverEarly(ts, caps);
      }
    }
  }

  /** How a step can stop: an in-loop bound error or a panic. */
  predicate InLoopStop(s: Step) {
    s.Stop? ==> s.outcome.Panic? || (s.outcome.Failure? && s.outcome.error.BoundExceeded?)
  }

  /** The loop only ends in an in-loop bound error or a panic. */
  lemma {:induction false} RunNeverEarly(ts: seq<Triangle>, caps: Caps)
    ensures InLoopStop(Run(ts, caps))
  {
    if ts != [] {
      var pre := ts[..|ts| - 1];
      RunNeverEarly(pre, caps);
    }
  }
}
