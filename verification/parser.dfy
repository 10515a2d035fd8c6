/** `parse_stl` (src/lib.rs:80-249) as an imperative method over the
    caller's four buffers, proved to end as `ParseSpec.ParseOutcome` says and,
    on success, to leave in the buffers exactly what `MeshBuild.Build`
    describes. */
module StlParser {
  import opened Words
  import opened Geometry
  import opened StlErrors
  import opened StlFormat
  import opened Preflight
  import opened MeshBuild
  import opened ParseSpec
  import opened BufferContents

  // ---------------------------------------------------------------------
  // The loop body.

  /** The buffers are distinct slices, as Rust's exclusive borrows guarantee. */
  predicate Disjoint4(a: object, b: object, c: object, d: object) {
    a != b && a != c && a != d && b != c && b != d && c != d
  }

  /** The caller's four buffers and the decoder's own `norm_count` are distinct. */
  predicate Disjoint5(a: object, b: object, c: object, d: object, e: object) {
    Disjoint4(a, b, c, d) && e != a && e != b && e != c && e != d
  }

  /** A corner at a stored vertex `k` adds the face normal to its slot
      (src/lib.rs:140-151). */
  method StoreHit(k: nat, n: Vertex, normals: array<F32>, ghost ns: seq<seq<Vertex>>, ghost n0: seq<F32>)
    requires k < |ns| && SumsIn(ns, normals[..]) && Unwritten(normals[..], 3 * |ns|, n0)
    modifies normals
    ensures SumsIn(ns[k := ns[k] + [n]], normals[..]) && Unwritten(normals[..], 3 * |ns|, n0)
  {
    ghost var s := normals[..];
    SumsAdd(ns, s, k, n);
    normals[3 * k] := Add(normals[3 * k], Bits(n.x));
    normals[3 * k + 1] := Add(normals[3 * k + 1], Bits(n.y));
    normals[3 * k + 2] := Add(normals[3 * k + 2], Bits(n.z));
    assert normals[..] == s[3 * k := Add(s[3 * k], Bits(n.x))][3 * k + 1 := Add(s[3 * k + 1], Bits(n.y))]
                           [3 * k + 2 := Add(s[3 * k + 2], Bits(n.z))];
  }

  /** A corner at a vertex not seen before stores its coordinates in the next
      vertex slot and the face normal in the next normal slot, each after its
      own bound check (src/lib.rs:153-180). */
  method StoreNew(v: Vertex, n: Vertex, i: nat, vpos: nat, vertices: array<bv32>, normals: array<F32>,
                  ghost vs: seq<Vertex>, ghost ns: seq<seq<Vertex>>, ghost v0: seq<bv32>, ghost n0: seq<F32>)
    returns (fault: Option<ParseError>)
    requires vertices as object != normals
    requires vpos == 3 * |vs| && |ns| == |vs|
    requires VertsIn(vs, vertices[..]) && SumsIn(ns, normals[..])
    requires Unwritten(vertices[..], vpos, v0) && Unwritten(normals[..], vpos, n0)
    modifies vertices, normals
    ensures fault == if vpos + 2 >= vertices.Length then Some(BoundExceeded(Vertices, vpos, vertices.Length, i))
                     else if vpos + 2 >= normals.Length then Some(BoundExceeded(Normals, vpos, normals.Length, i))
                     else None
    ensures fault.None? ==>
              && VertsIn(vs + [v], vertices[..]) && SumsIn(ns + [[n]], normals[..])
              && Unwritten(vertices[..], vpos + 3, v0) && Unwritten(normals[..], vpos + 3, n0)
  {
    if vpos + 2 >= vertices.Length {
      return Some(BoundExceeded(Vertices, vpos, vertices.Length, i));
    }
    ghost var s := vertices[..];
    VertsAppend(vs, s, v);
    vertices[vpos] := v.x;
    vertices[vpos + 1] := v.y;
    vertices[vpos + 2] := v.z;
    assert vertices[..] == s[vpos := v.x][vpos + 1 := v.y][vpos + 2 := v.z];
    ghost var u := vertices[..];
    if vpos + 2 >= normals.Length {
      return Some(BoundExceeded(Normals, vpos, normals.Length, i));
    }
    ghost var t := normals[..];
    SumsAppend(ns, t, n);
    normals[vpos] := Bits(n.x);
    normals[vpos + 1] := Bits(n.y);
    normals[vpos + 2] := Bits(n.z);
    assert normals[..] == t[vpos := Bits(n.x)][vpos + 1 := Bits(n.y)][vpos + 2 := Bits(n.z)];
    assert vertices[..] == u;
    fault := None;
  }

  /** Records the corner's vertex index in `v_indices` and counts the normal
      in `norm_count`, each after its own bound check (src/lib.rs:182-199).
      `ns'` is the normal lists once the corner's normal is collected. */
  method RecordCorner(index: nat, i: nat, j: nat, vIndices: array<nat>, counts: array<nat>,
                      ghost cs: seq<nat>, ghost ns: seq<seq<Vertex>>, ghost ns': seq<seq<Vertex>>, ghost n: Vertex,
                      ghost vi0: seq<nat>)
    returns (fault: Option<ParseError>)
    requires vIndices != counts
    requires |cs| == 3 * i + j
    requires (index < |ns| && ns' == ns[index := ns[index] + [n]]) || (index == |ns| && ns' == ns + [[n]])
    requires CornersIn(cs, vIndices[..]) && CountsIn(ns, counts[..]) && Unwritten(vIndices[..], |cs|, vi0)
    modifies vIndices, counts
    ensures fault == if 3 * i + j >= vIndices.Length then Some(BoundExceeded(VertexIndices, 3 * i + j, vIndices.Length, i))
                     else if index >= counts.Length then Some(BoundExceeded(NormCount, index, counts.Length, i))
                     else None
    ensures fault.None? ==>
              CornersIn(cs + [index], vIndices[..]) && CountsIn(ns', counts[..]) && Unwritten(vIndices[..], |cs| + 1, vi0)
  {
    if 3 * i + j >= vIndices.Length {
      return Some(BoundExceeded(VertexIndices, 3 * i + j, vIndices.Length, i));
    }
    ghost var s := vIndices[..];
    CornersAppend(cs, s, index);
    vIndices[3 * i + j] := index;
    assert vIndices[..] == s[|cs| := index];
    if index >= counts.Length {
      return Some(BoundExceeded(NormCount, index, counts.Length, i));
    }
    ghost var c := counts[..];
    if index < |ns| {
      CountsAdd(ns, c, index, n);
    } else {
      CountsAppend(ns, c, n);
    }
    counts[index] := counts[index] + 1;
    assert counts[..] == c[index := c[index] + 1];
    fault := None;
  }

  /** One corner (src/lib.rs:137-199): look the vertex up, on a hit add the
      face normal to its slot, on a miss store the vertex and its first
      normal in the next slot; then record the index in `v_indices` and count
      it in `norm_count`. Ends with the first failing bound check. */
  method PlaceCorner(v: Vertex, normal: Vertex, i: nat, j: nat,
                     vset: map<Vertex, nat>, vpos: nat,
                     vertices: array<bv32>, normals: array<F32>, vIndices: array<nat>, eIndices: array<nat>,
                     counts: array<nat>, ghost m: Mesh, ghost caps: Caps, ghost o: Originals)
    returns (fault: Option<ParseError>, index: nat, vset': map<Vertex, nat>, vpos': nat, ghost m': Mesh)
    requires Disjoint5(vertices, normals, vIndices, counts, eIndices)
    requires Valid(m) && |m.corners| == 3 * i + j
    requires caps == Caps(vertices.Length, normals.Length, vIndices.Length, eIndices.Length, counts.Length)
    requires vset == m.index && vpos == 3 * |m.verts|
    requires Holds(m, vertices[..], normals[..], vIndices[..], eIndices[..], counts[..], o)
    modifies vertices, normals, vIndices, counts
    ensures fault == CornerFault(m, v, i, j, caps)
    ensures fault.None? ==>
              && m' == Resolve(m, v, normal) && index == IndexFor(m, v)
              && vset' == m'.index && vpos' == 3 * |m'.verts|
              && Holds(m', vertices[..], normals[..], vIndices[..], eIndices[..], counts[..], o)
  {
    vset', vpos', m' := vset, vpos, m;
    ghost var es0 := eIndices[..];
    ghost var ns' := m.normalsOf;
    if v in vset {
      index := vset[v];
      // The normals bound check on a hit (src/lib.rs:140) cannot fail: the
      // slot passed the same check when the vertex was first stored.
      assert 3 * index + 2 < normals.Length;
      StoreHit(index, normal, normals, m.normalsOf, o.normals);
      ns' := m.normalsOf[index := m.normalsOf[index] + [normal]];
    } else {
      index := vpos / 3;
      fault := StoreNew(v, normal, i, vpos, vertices, normals, m.verts, m.normalsOf, o.vertices, o.normals);
      if fault.Some? {
        return;
      }
      ns' := m.normalsOf + [[normal]];
      vpos' := vpos + 3;
      vset' := vset[v := index];
    }
    fault := RecordCorner(index, i, j, vIndices, counts, m.corners, m.normalsOf, ns', normal, o.vIndices);
    if fault.Some? {
      return;
    }
    m' := Resolve(m, v, normal);
    assert eIndices[..] == es0;
  }

  /** One edge (src/lib.rs:202-237): unless an equal edge is in `eset`, its
      endpoints go to e_indices[epos] and e_indices[epos + 1], which the source
      does not bound-check, so an index past the end aborts. */
  method PlaceEdge(e: Edge, eset: set<(nat, nat)>, epos: nat, eIndices: array<nat>,
                   ghost m: Mesh, ghost caps: Caps, ghost e0: seq<nat>)
    returns (fault: Option<Outcome>, eset': set<(nat, nat)>, epos': nat)
    requires Valid(m) && e.a < |m.verts| && e.b < |m.verts| && caps.eIndices == eIndices.Length
    requires eset == m.edgeKeys && epos == 2 * |m.edges|
    requires EdgesIn(m.edges, eIndices[..]) && Unwritten(eIndices[..], epos, e0)
    modifies eIndices
    ensures fault == EdgeFault(m, e, caps)
    ensures fault.None? ==>
              var m' := AddEdge(m, e);
              && eset' == m'.edgeKeys && epos' == 2 * |m'.edges|
              && EdgesIn(m'.edges, eIndices[..]) && Unwritten(eIndices[..], epos', e0)
  {
    eset', epos' := eset, epos;
    if EdgeHashInput(e) !in eset {
      if epos >= eIndices.Length {
        return Some(Panic(epos, eIndices.Length)), eset', epos';
      }
      ghost var s: seq<nat> := eIndices[..];
      eIndices[epos] := e.a;
      if epos + 1 >= eIndices.Length {
        return Some(Panic(epos + 1, eIndices.Length)), eset', epos';
      }
      EdgesAppend(m.edges, s, e);
      eIndices[epos + 1] := e.b;
      assert eIndices[..] == s[epos := e.a][epos + 1 := e.b];
      epos' := epos + 2;
      eset' := eset + {EdgeHashInput(e)};
    }
    fault := None;
  }

  /** Corner `j` of frame `i` is read 12 * (j + 1) bytes into the frame. */
  lemma CornerOfFrame(buf: seq<bv8>, i: nat, j: nat)
    requires FrameOffset(i) + 50 <= |buf| && j < 3
    ensures ReadVertex(buf[84 + i * 50 + 12 * (j + 1)..]) == Corner(ReadTriangle(buf, i), j)
  {
  }

  /** Corner `j` extends a run that got through the first `j` corners. */
  lemma CornerStep(m: Mesh, t: Triangle, i: nat, j: nat, caps: Caps, mj: Mesh)
    requires Valid(m) && j < 3 && RunCorners(m, t, i, j, caps) == Continue(mj)
    ensures var f := CornerFault(mj, Corner(t, j), i, j, caps);
            && (f.Some? ==> RunCorners(m, t, i, j + 1, caps) == Stop(Failure(f.value)))
            && (f.None? ==> RunCorners(m, t, i, j + 1, caps) == Continue(Resolve(mj, Corner(t, j), t.normal)))
    ensures ResolveCorners(m, t, j + 1) == Resolve(mj, Corner(t, j), t.normal)
    ensures Resolve(mj, Corner(t, j), t.normal).corners == mj.corners + [IndexFor(mj, Corner(t, j))]
  {
  }

  /** The first `j` entries of `idx` are the corner indices from `base` on. */
  predicate Recorded(idx: seq<nat>, cs: seq<nat>, base: nat, j: nat) {
    j <= |idx| && base + j <= |cs| && forall k | 0 <= k < j :: idx[k] == cs[base + k]
  }

  lemma RecordedStep(idx: seq<nat>, cs: seq<nat>, base: nat, j: nat, x: nat)
    requires Recorded(idx, cs, base, j) && j < |idx| && |cs| == base + j
    ensures Recorded(idx[j := x], cs + [x], base, j + 1)
  {
  }

  lemma RecordedAll(idx: seq<nat>, cs: seq<nat>, base: nat)
    requires |idx| == 3 && |cs| == base + 3 && Recorded(idx, cs, base, 3)
    ensures idx == cs[base..]
  {
  }

  /** A stop among the first `j` corners is the stop of the whole triangle. */
  lemma {:induction false} CornerStopPersists(m: Mesh, t: Triangle, i: nat, j: nat, k: nat, caps: Caps)
    requires Valid(m) && j <= k <= 3 && RunCorners(m, t, i, j, caps).Stop?
    ensures RunCorners(m, t, i, k, caps) == RunCorners(m, t, i, j, caps)
    decreases k
  {
    if k > j {
      CornerStopPersists(m, t, i, j, k - 1, caps);
    }
  }

  /** Corner `j` of frame `i` (src/lib.rs:136-199): read the vertex and place
      it, extending a run that got through the first `j` corners. */
  method DecodeCorner(buf: seq<bv8>, i: nat, j: nat, normal: Vertex, vset: map<Vertex, nat>, vpos: nat,
                      vertices: array<bv32>, normals: array<F32>, vIndices: array<nat>, eIndices: array<nat>,
                      counts: array<nat>, ghost m: Mesh, ghost mj: Mesh, ghost caps: Caps, ghost o: Originals)
    returns (fault: Option<ParseError>, index: nat, vset': map<Vertex, nat>, vpos': nat, ghost m': Mesh)
    requires Disjoint5(vertices, normals, vIndices, counts, eIndices)
    requires FrameOffset(i) + 50 <= |buf| && normal == ReadTriangle(buf, i).normal
    requires Valid(m) && |m.corners| == 3 * i && j < 3
    requires RunCorners(m, ReadTriangle(buf, i), i, j, caps) == Continue(mj)
    requires caps == Caps(vertices.Length, normals.Length, vIndices.Length, eIndices.Length, counts.Length)
    requires vset == mj.index && vpos == 3 * |mj.verts|
    requires Holds(mj, vertices[..], normals[..], vIndices[..], eIndices[..], counts[..], o)
    modifies vertices, normals, vIndices, counts
    ensures fault.Some? ==> RunCorners(m, ReadTriangle(buf, i), i, 3, caps) == Stop(Failure(fault.value))
    ensures fault.None? ==>
              && RunCorners(m, ReadTriangle(buf, i), i, j + 1, caps) == Continue(m')
              && m'.corners == mj.corners + [index]
              && vset' == m'.index && vpos' == 3 * |m'.verts|
              && Holds(m', vertices[..], normals[..], vIndices[..], eIndices[..], counts[..], o)
  {
    ghost var tri := ReadTriangle(buf, i);
    var v := ReadVertex(buf[84 + i * 50 + 12 * (j + 1)..]);
    CornerOfFrame(buf, i, j);
    fault, index, vset', vpos', m' :=
      PlaceCorner(v, normal, i, j, vset, vpos, vertices, normals, vIndices, eIndices, counts, mj, caps, o);
    CornerStep(m, tri, i, j, caps, mj);
    if fault.Some? {
      CornerStopPersists(m, tri, i, j + 1, 3, caps);
    }
  }

  /** The three corners of frame `i` (src/lib.rs:135-199), ending with the
      first failing bound check as `RunCorners` says. */
  method DecodeCorners(buf: seq<bv8>, i: nat, normal: Vertex, vset: map<Vertex, nat>, vpos: nat,
                       vertices: array<bv32>, normals: array<F32>, vIndices: array<nat>, eIndices: array<nat>,
                       counts: array<nat>, ghost m: Mesh, ghost caps: Caps, ghost o: Originals)
    returns (fault: Option<ParseError>, indexes: seq<nat>, vset': map<Vertex, nat>, vpos': nat, ghost m': Mesh)
    requires Disjoint5(vertices, normals, vIndices, counts, eIndices)
    requires FrameOffset(i) + 50 <= |buf| && normal == ReadTriangle(buf, i).normal
    requires Valid(m) && |m.corners| == 3 * i
    requires caps == Caps(vertices.Length, normals.Length, vIndices.Length, eIndices.Length, counts.Length)
    requires vset == m.index && vpos == 3 * |m.verts|
    requires Holds(m, vertices[..], normals[..], vIndices[..], eIndices[..], counts[..], o)
    modifies vertices, normals, vIndices, counts
    ensures var s := RunCorners(m, ReadTriangle(buf, i), i, 3, caps);
            && (fault.None? <==> s.Continue?)
            && (fault.Some? ==> s == Stop(Failure(fault.value)))
    ensures fault.None? ==>
              && m' == ResolveCorners(m, ReadTriangle(buf, i), 3)
              && |indexes| == 3 && indexes == m'.corners[3 * i..]
              && vset' == m'.index && vpos' == 3 * |m'.verts|
              && Holds(m', vertices[..], normals[..], vIndices[..], eIndices[..], counts[..], o)
  {
    ghost var tri := ReadTriangle(buf, i);
    indexes := [0, 0, 0];
    vset', vpos', m' := vset, vpos, m;
    var j := 0;
    while j < 3
      invariant 0 <= j <= 3 && |indexes| == 3
      invariant RunCorners(m, tri, i, j, caps) == Continue(m')
      invariant vset' == m'.index && vpos' == 3 * |m'.verts|
      invariant |m'.corners| == 3 * i + j && Recorded(indexes, m'.corners, 3 * i, j)
      invariant Holds(m', vertices[..], normals[..], vIndices[..], eIndices[..], counts[..], o)
    {
      var index;
      ghost var mj := m';
      fault, index, vset', vpos', m' :=
        DecodeCorner(buf, i, j, normal, vset', vpos', vertices, normals, vIndices, eIndices, counts, m, mj, caps, o);
      if fault.Some? {
        return;
      }
      RecordedStep(indexes, mj.corners, 3 * i, j, index);
      indexes := indexes[j := index];
      j := j + 1;
    }
    RecordedAll(indexes, m'.corners, 3 * i);
    fault := None;
  }

  /** The three edges between the corners just recorded (src/lib.rs:202-237),
      ending with the first out-of-range write as `RunEdges` says. */
  method CloseEdges(indexes: seq<nat>, eset: set<(nat, nat)>, epos: nat, eIndices: array<nat>,
                    ghost m: Mesh, ghost caps: Caps, ghost e0: seq<nat>)
    returns (stop: Option<Outcome>, eset': set<(nat, nat)>, epos': nat)
    requires Valid(m) && |m.corners| >= 3 && indexes == m.corners[|m.corners| - 3..]
    requires caps.eIndices == eIndices.Length
    requires eset == m.edgeKeys && epos == 2 * |m.edges|
    requires EdgesIn(m.edges, eIndices[..]) && Unwritten(eIndices[..], epos, e0)
    modifies eIndices
    ensures (stop.None? <==> RunEdges(m, caps).Continue?) && (stop.Some? ==> RunEdges(m, caps) == Stop(stop.value))
    ensures stop.None? ==>
              var m' := CloseTriangle(m);
              && eset' == m'.edgeKeys && epos' == 2 * |m'.edges|
              && EdgesIn(m'.edges, eIndices[..]) && Unwritten(eIndices[..], epos', e0)
  {
    var es := TriangleEdges(indexes[0], indexes[1], indexes[2]);
    stop, eset', epos' := PlaceEdge(es[0], eset, epos, eIndices, m, caps, e0);
    if stop.Some? {
      return;
    }
    ghost var m1 := AddEdge(m, es[0]);
    stop, eset', epos' := PlaceEdge(es[1], eset', epos', eIndices, m1, caps, e0);
    if stop.Some? {
      return;
    }
    ghost var m2 := AddEdge(m1, es[1]);
    stop, eset', epos' := PlaceEdge(es[2], eset', epos', eIndices, m2, caps, e0);
  }

  /** One iteration of the triangle loop (src/lib.rs:129-238): the three
      corners of frame `i`, then the three edges between them. Ends with the
      first failing check, as `TriangleStep` says. */
  method DecodeTriangle(buf: seq<bv8>, i: nat, vset: map<Vertex, nat>, vpos: nat, eset: set<(nat, nat)>, epos: nat,
                        vertices: array<bv32>, normals: array<F32>, vIndices: array<nat>, eIndices: array<nat>,
                        counts: array<nat>, ghost m: Mesh, ghost caps: Caps, ghost o: Originals)
    returns (stop: Option<Outcome>, vset': map<Vertex, nat>, vpos': nat, eset': set<(nat, nat)>, epos': nat,
             ghost m': Mesh)
    requires Disjoint5(vertices, normals, vIndices, counts, eIndices)
    requires FrameOffset(i) + 50 <= |buf|
    requires Valid(m) && |m.corners| == 3 * i
    requires caps == Caps(vertices.Length, normals.Length, vIndices.Length, eIndices.Length, counts.Length)
    requires vset == m.index && vpos == 3 * |m.verts| && eset == m.edgeKeys && epos == 2 * |m.edges|
    requires Holds(m, vertices[..], normals[..], vIndices[..], eIndices[..], counts[..], o)
    modifies vertices, normals, vIndices, eIndices, counts
    ensures var s := TriangleStep(m, ReadTriangle(buf, i), i, caps);
            && (stop.None? <==> s.Continue?)
            && (stop.Some? ==> s == Stop(stop.value))
    ensures stop.None? ==>
              && m' == AddTriangle(m, ReadTriangle(buf, i))
              && vset' == m'.index && vpos' == 3 * |m'.verts| && eset' == m'.edgeKeys && epos' == 2 * |m'.edges|
              && Holds(m', vertices[..], normals[..], vIndices[..], eIndices[..], counts[..], o)
  {
    var normal := ReadVertex(buf[84 + i * 50..]);
    var fault, indexes;
    eset', epos' := eset, epos;
    fault, indexes, vset', vpos', m' :=
      DecodeCorners(buf, i, normal, vset, vpos, vertices, normals, vIndices, eIndices, counts, m, caps, o);
    if fault.Some? {
      return Some(Failure(fault.value)), vset', vpos', eset', epos', m';
    }
    ghost var m3 := m';
    stop, eset', epos' := CloseEdges(indexes, eset, epos, eIndices, m3, caps, o.eIndices);
    if stop.None? {
      m' := CloseTriangle(m3);
    }
  }

  /** Iteration `i` of the loop over the declared frames, stated on the run
      over the first `i + 1` of them. */
  method DecodeNext(buf: seq<bv8>, t: nat, i: nat, vset: map<Vertex, nat>, vpos: nat, eset: set<(nat, nat)>, epos: nat,
                    vertices: array<bv32>, normals: array<F32>, vIndices: array<nat>, eIndices: array<nat>,
                    counts: array<nat>, ghost ts: seq<Triangle>, ghost m: Mesh, ghost caps: Caps, ghost o: Originals)
    returns (stop: Option<Outcome>, vset': map<Vertex, nat>, vpos': nat, eset': set<(nat, nat)>, epos': nat,
             ghost m': Mesh)
    requires Disjoint5(vertices, normals, vIndices, counts, eIndices)
    requires FramesOf(buf, t, ts) && i < t
    requires Run(ts[..i], caps) == Continue(m)
    requires caps == Caps(vertices.Length, normals.Length, vIndices.Length, eIndices.Length, counts.Length)
    requires vset == m.index && vpos == 3 * |m.verts| && eset == m.edgeKeys && epos == 2 * |m.edges|
    requires Holds(m, vertices[..], normals[..], vIndices[..], eIndices[..], counts[..], o)
    modifies vertices, normals, vIndices, eIndices, counts
    ensures stop.Some? ==> Run(ts[..i + 1], caps) == Stop(stop.value)
    ensures stop.None? ==>
              && Run(ts[..i + 1], caps) == Continue(m')
              && vset' == m'.index && vpos' == 3 * |m'.verts| && eset' == m'.edgeKeys && epos' == 2 * |m'.edges|
              && Holds(m', vertices[..], normals[..], vIndices[..], eIndices[..], counts[..], o)
  {
    RunExtend(ts, i, caps);
    assert ts[i] == ReadTriangle(buf, i);
    stop, vset', vpos', eset', epos', m' :=
      DecodeTriangle(buf, i, vset, vpos, eset, epos, vertices, normals, vIndices, eIndices, counts, m, caps, o);
  }

  // ---------------------------------------------------------------------
  // The division pass (src/lib.rs:244-246).

  /** Slots before `k` hold means, the rest of the used slots still hold sums. */
  predicate DividedUpTo(ns: seq<seq<Vertex>>, s: seq<F32>, k: nat) {
    && 3 * |ns| <= |s|
    && (forall q | 0 <= q < |ns| :: |ns[q]| >= 1)
    && forall q, c | 0 <= q < |ns| && 0 <= c < 3 ::
         s[3 * q + c] == if 3 * q + c < k then MeanOf(ns[q], c) else SumOf(ns[q], c)
  }

  lemma DivideStep(ns: seq<seq<Vertex>>, s: seq<F32>, k: nat, counts: seq<nat>)
    requires DividedUpTo(ns, s, k) && k < 3 * |ns| && CountsIn(ns, counts)
    ensures k / 3 < |counts| && DividedUpTo(ns, s[k := Div(s[k], counts[k / 3])], k + 1)
  {
    var q, c := k / 3, k % 3;
    assert 3 * q + c == k;
    assert s[k] == SumOf(ns[q], c) && counts[q] == |ns[q]|;
    var s' := s[k := Div(s[k], counts[k / 3])];
    forall q', c' | 0 <= q' < |ns| && 0 <= c' < 3
      ensures s'[3 * q' + c'] == if 3 * q' + c' < k + 1 then MeanOf(ns[q'], c') else SumOf(ns[q'], c')
    {
      if 3 * q' + c' == k {
        assert q' == q && c' == c;
      }
    }
  }

  /** Each used normal slot is divided by the number of normals collected
      for its vertex, turning the running sums into means. */
  method Normalize(normals: array<F32>, counts: array<nat>, vpos: nat, ghost ns: seq<seq<Vertex>>, ghost n0: seq<F32>)
    requires normals as object != counts
    requires vpos == 3 * |ns| && SumsIn(ns, normals[..]) && CountsIn(ns, counts[..]) && Unwritten(normals[..], vpos, n0)
    modifies normals
    ensures MeansIn(ns, normals[..]) && Unwritten(normals[..], vpos, n0)
  {
    var k := 0;
    while k < vpos
      invariant 0 <= k <= vpos
      invariant DividedUpTo(ns, normals[..], k) && Unwritten(normals[..], vpos, n0)
      invariant CountsIn(ns, counts[..])
    {
      DivideStep(ns, normals[..], k, counts[..]);
      normals[k] := Div(normals[k], counts[k / 3]);
      k := k + 1;
    }
  }

  // ---------------------------------------------------------------------
  // The whole decoder.

  /** What the loop over a prefix of `ts` does once one more triangle is
      added. */
  lemma RunExtend(ts: seq<Triangle>, i: nat, caps: Caps)
    requires i < |ts|
    ensures Run(ts[..i], caps).Stop? ==> Run(ts[..i + 1], caps) == Run(ts[..i], caps)
    ensures Run(ts[..i], caps).Continue? ==>
              Run(ts[..i + 1], caps) == TriangleStep(Run(ts[..i], caps).m, ts[i], i, caps)
  {
    assert ts[..i + 1][..i] == ts[..i];
  }

  /** The run over no triangles gets through with nothing built, and the
      run over all of them is the run over the longest prefix. */
  lemma RunPrefixBounds(ts: seq<Triangle>, caps: Caps)
    ensures Run(ts[..0], caps) == Continue(Empty)
    ensures ts[..|ts|] == ts
  {
    assert ts[..0] == [];
  }

  /** A stop on a prefix is the stop of the whole loop. */
  lemma {:induction false} RunStopPersists(ts: seq<Triangle>, k: nat, caps: Caps)
    requires k <= |ts| && Run(ts[..k], caps).Stop?
    ensures Run(ts, caps) == Run(ts[..k], caps)
    decreases |ts| - k
  {
    if k == |ts| {
      assert ts[..k] == ts;
    } else {
      RunExtend(ts, k, caps);
      RunStopPersists(ts, k + 1, caps);
    }
  }

  /** The triangle loop (src/lib.rs:128-240) over the `t` declared frames,
      with `norm_count` freshly zeroed. Ends as `Run` says. */
  method DecodeAll(buf: seq<bv8>, t: nat,
                   vertices: array<bv32>, normals: array<F32>, vIndices: array<nat>, eIndices: array<nat>,
                   counts: array<nat>, ghost ts: seq<Triangle>, ghost caps: Caps, ghost o: Originals)
    returns (stop: Option<Outcome>, vpos: nat, ghost m: Mesh)
    requires Disjoint5(vertices, normals, vIndices, counts, eIndices)
    requires FramesOf(buf, t, ts)
    requires caps == Caps(vertices.Length, normals.Length, vIndices.Length, eIndices.Length, counts.Length)
    requires Holds(Empty, vertices[..], normals[..], vIndices[..], eIndices[..], counts[..], o)
    modifies vertices, normals, vIndices, eIndices, counts
    ensures stop.Some? ==> Run(ts, caps) == Stop(stop.value)
    ensures stop.None? ==>
              && Run(ts, caps) == Continue(m) && vpos == 3 * |m.verts|
              && Holds(m, vertices[..], normals[..], vIndices[..], eIndices[..], counts[..], o)
  {
    var vset: map<Vertex, nat> := map[];
    var eset: set<(nat, nat)> := {};
    var epos := 0;
    vpos := 0;
    m := Empty;
    RunPrefixBounds(ts, caps);
    stop := None;
    var i := 0;
    while i < t && stop.None?
      invariant 0 <= i <= t
      invariant stop.Some? ==> Run(ts[..i], caps) == Stop(stop.value)
      invariant stop.None? ==> Run(ts[..i], caps) == Continue(m)
      invariant stop.None? ==> vset == m.index && vpos == 3 * |m.verts| && eset == m.edgeKeys && epos == 2 * |m.edges|
      invariant stop.None? ==> Holds(m, vertices[..], normals[..], vIndices[..], eIndices[..], counts[..], o)
    {
      stop, vset, vpos, eset, epos, m :=
        DecodeNext(buf, t, i, vset, vpos, eset, epos, vertices, normals, vIndices, eIndices, counts, ts, m, caps, o);
      i := i + 1;
    }
    if stop.Some? {
      RunStopPersists(ts, i, caps);
    }
  }

  /** Once the header, the size check and the preflight pass, the outcome
      is the loop's. */
  lemma OutcomeAfterPreflight(buf: seq<bv8>, t: nat, vLen: nat, nLen: nat, viLen: nat, eLen: nat)
    requires ReadHeader(buf) == Ok(t) && FrameOffset(t) <= |buf|
    requires CheckSufficientMemory(t, vLen, nLen, viLen, eLen).None?
    ensures ParseOutcome(buf, vLen, nLen, viLen, eLen) == Finish(Run(Triangles(buf, t), Caps(vLen, nLen, viLen, eLen, t / 2 + 2)))
  {
    assert DeclaredSizeCheck(t, |buf|) == None;
  }

  /** Everything after the preflight (src/lib.rs:120-248): zero `norm_count`,
      run the loop and, if it gets through, divide the normal sums. */
  method DecodeMesh(buf: seq<bv8>, t: nat,
                    vertices: array<bv32>, normals: array<F32>, vIndices: array<nat>, eIndices: array<nat>)
    returns (r: Outcome)
    requires Disjoint4(vertices, normals, vIndices, eIndices)
    requires FrameOffset(t) <= |buf|
    modifies vertices, normals, vIndices, eIndices
    ensures r == Finish(Run(Triangles(buf, t), Caps(vertices.Length, normals.Length, vIndices.Length, eIndices.Length, t / 2 + 2)))
    ensures r.Failure? ==> r.error.BoundExceeded?
    ensures r == Success ==>
              Decoded(Build(Triangles(buf, t)), vertices[..], normals[..], vIndices[..], eIndices[..],
                      Originals(old(vertices[..]), old(normals[..]), old(vIndices[..]), old(eIndices[..])))
  {
    ghost var o := Originals(vertices[..], normals[..], vIndices[..], eIndices[..]);
    var counts := new nat[t / 2 + 2](_ => 0);
    ghost var caps := Caps(vertices.Length, normals.Length, vIndices.Length, eIndices.Length, t / 2 + 2);
    ghost var ts := Triangles(buf, t);
    TrianglesAreFrames(buf, t);
    var stop, vpos, m := DecodeAll(buf, t, vertices, normals, vIndices, eIndices, counts, ts, caps, o);
    if stop.Some? {
      RunNeverEarly(ts, caps);
      return stop.value;
    }
    Normalize(normals, counts, vpos, m.normalsOf, o.normals);
    r := Success;
  }

  /** `parse_stl` (src/lib.rs:80-249). Ends as `ParseOutcome` says; leaves the
      buffers as they were when it fails before the loop; on success leaves
      in them the mesh `Build` describes. */
  method Parse(buf: seq<bv8>, vertices: array<bv32>, normals: array<F32>, vIndices: array<nat>, eIndices: array<nat>)
    returns (r: Outcome)
    requires Disjoint4(vertices, normals, vIndices, eIndices)
    modifies vertices, normals, vIndices, eIndices
    ensures r == ParseOutcome(buf, vertices.Length, normals.Length, vIndices.Length, eIndices.Length)
    ensures r.Failure? && !r.error.BoundExceeded? ==>
              unchanged(vertices) && unchanged(normals) && unchanged(vIndices) && unchanged(eIndices)
    ensures r == Success ==>
              && |buf| >= 84 && FrameOffset(WordAt(buf, 80) as nat) <= |buf|
              && Decoded(Build(Triangles(buf, WordAt(buf, 80) as nat)),
                         vertices[..], normals[..], vIndices[..], eIndices[..],
                         Originals(old(vertices[..]), old(normals[..]), old(vIndices[..]), old(eIndices[..])))
  {
    EarlyErrorsInOrder(buf, vertices.Length, normals.Length, vIndices.Length, eIndices.Length);
    if |buf| < 80 {
      return Failure(HeaderTooSmall);
    }
    if |buf| < 84 {
      return Failure(CountMissing);
    }
    var t := WordAt(buf, 80) as nat;
    if |buf| < 84 + t * 50 {
      return Failure(SizeMismatch(t, |buf|));
    }
    var short := CheckSufficientMemory(t, vertices.Length, normals.Length, vIndices.Length, eIndices.Length);
    if short.Some? {
      return Failure(short.value);
    }
    OutcomeAfterPreflight(buf, t, vertices.Length, normals.Length, vIndices.Length, eIndices.Length);
    r := DecodeMesh(buf, t, vertices, normals, vIndices, eIndices);
  }
}
