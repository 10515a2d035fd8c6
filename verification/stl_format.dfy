/** The binary STL layout: an 80-byte header, a little-endian u32 triangle
    count at byte 80, then one 50-byte frame per triangle (normal, three
    vertices, two attribute bytes). Reading the header and the frames
    (src/lib.rs:87-114, 130-137, 303-312), and an encoder used to state that
    the reader inverts it. */
module StlFormat {
  import opened Words
  import opened Geometry
  import opened StlErrors

  // Sizes are written as literals so that the solver sees linear arithmetic:
  // 80 is the header, 84 the start of the first frame (header plus the u32
  // count), 50 the frame size `4 * 3 * size_of::<f32>() + size_of::<u16>()`
  // (src/lib.rs:103-105).

  /** One frame as the parse loop uses it: face normal and three corners. */
  datatype Triangle = Triangle(normal: Vertex, v0: Vertex, v1: Vertex, v2: Vertex)

  /** Corner `j` of a triangle (the loop's `j in 0..3`). */
  function Corner(t: Triangle, j: nat): Vertex
    requires j < 3
  {
    if j == 0 then t.v0 else if j == 1 then t.v1 else t.v2
  }

  /** `read_vertex`: three f32 bit patterns from the first 12 bytes of the
      slice (src/lib.rs:303-308). The source indexes `buf[0..4]` etc., which
      requires the 12 bytes to be there. */
  function ReadVertex(s: seq<bv8>): (r: Vertex)
    requires |s| >= 12
    ensures VertexBytes(r) == s[..12]
  {
    assert s[..12] == s[0..4] + s[4..8] + s[8..12];
    Vertex(F32BitsAt(s, 0), F32BitsAt(s, 4), F32BitsAt(s, 8))
  }

  /** `84 + i * FRAME_SIZE` (src/lib.rs:130). */
  function FrameOffset(i: nat): nat {
    84 + 50 * i
  }

  /** Triangle `i`: the normal at the frame start, corner j at `12 * (j + 1)`
      bytes into the frame (src/lib.rs:130-137). */
  function ReadTriangle(buf: seq<bv8>, i: nat): (r: Triangle)
    requires FrameOffset(i) + 50 <= |buf|
    ensures FrameHolds(buf, FrameOffset(i), r)
  {
    var off := FrameOffset(i);
    FrameOfReads(buf, off);
    Triangle(ReadVertex(buf[off..]), ReadVertex(buf[off + 12..]),
             ReadVertex(buf[off + 24..]), ReadVertex(buf[off + 36..]))
  }

  /** The 50 bytes at `off` are the encoding of `t` followed by two
      attribute bytes. */
  predicate FrameHolds(buf: seq<bv8>, off: nat, t: Triangle) {
    off + 50 <= |buf| && FrameBytes(t, buf[off + 48..off + 50]) == buf[off..off + 50]
  }

  /** The first `t` triangles of the file. */
  function Triangles(buf: seq<bv8>, t: nat): (r: seq<Triangle>)
    requires FrameOffset(t) <= |buf|
    ensures |r| == t
  {
    seq(t, i requires 0 <= i < t && FrameOffset(t) <= |buf| =>
      assert FrameOffset(i) + 50 <= FrameOffset(t);
      ReadTriangle(buf, i))
  }

  /** `ts` lists the triangles of the first `t` frames of `buf`. */
  predicate FramesOf(buf: seq<bv8>, t: nat, ts: seq<Triangle>) {
    && FrameOffset(t) <= |buf| && |ts| == t
    && forall i | 0 <= i < t :: FrameOffset(i) + 50 <= |buf| && ts[i] == ReadTriangle(buf, i)
  }

  /** `Triangles` lists the declared frames. */
  lemma TrianglesAreFrames(buf: seq<bv8>, t: nat)
    requires FrameOffset(t) <= |buf|
    ensures FramesOf(buf, t, Triangles(buf, t))
  {
  }

  /** Header validation and the triangle count (src/lib.rs:87-100). */
  function ReadHeader(buf: seq<bv8>): (r: Result<nat>)
    ensures |buf| < 80 ==> r == Err(HeaderTooSmall)
    ensures 80 <= |buf| < 84 ==> r == Err(CountMissing)
    ensures 84 <= |buf| <==> r.Ok?
    ensures r.Ok? ==> r.value == WordAt(buf, 80) as nat < 0x1_0000_0000
  {
    if |buf| < 80 then Err(HeaderTooSmall)
    else if |buf| < 84 then Err(CountMissing)
    else Ok(WordAt(buf, 80) as nat)
  }

  /** The declared-size check (src/lib.rs:107-114), with the arithmetic done
      on unbounded integers (a 64-bit `usize` never overflows here). */
  function DeclaredSizeCheck(t: nat, len: nat): (r: Option<ParseError>)
    ensures r.None? <==> FrameOffset(t) <= len
    ensures r.Some? ==> r.value == SizeMismatch(t, len)
  {
    if len < 84 + 50 * t then Some(SizeMismatch(t, len)) else None
  }

  /** The size check is exact: it passes precisely when every declared frame,
      attribute bytes included, lies inside the buffer. */
  lemma SizeCheckCoversFrames(t: nat, len: nat)
    requires len >= 84
    ensures DeclaredSizeCheck(t, len).None? <==>
            forall i :: 0 <= i < t ==> FrameOffset(i) + 50 <= len
  {
    if DeclaredSizeCheck(t, len).None? {
      forall i | 0 <= i < t
        ensures FrameOffset(i) + 50 <= len
      {
        assert FrameOffset(i) + 50 <= FrameOffset(t);
      }
    } else if t > 0 {
      assert FrameOffset(t - 1) + 50 > len;
    }
  }

  /** The check as the source computes it where `usize` is 32 bits wide, as
      on wasm32, and overflow wraps, as in a release build. */
  function DeclaredSizeCheckWasm32(t: nat, len: nat): (r: Option<ParseError>)
    requires t < 0x1_0000_0000
    ensures r.None? <==> (84 + 50 * t) % 0x1_0000_0000 <= len
  {
    if len < (84 + 50 * t) % 0x1_0000_0000 then Some(SizeMismatch(t, len)) else None
  }

  /** With 32-bit wrap-around, an 88-byte file declaring 85899346 triangles
      passes the size check although not even its first frame is present:
      84 + 50 * 85899346 = 2^32 + 88. */
  lemma WrappedSizeCheckAdmitsShortFile()
    ensures DeclaredSizeCheckWasm32(85899346, 88).None?
    ensures DeclaredSizeCheck(85899346, 88) == Some(SizeMismatch(85899346, 88))
    ensures FrameOffset(0) + 50 > 88
  {
  }

  // ---- Encoding, to state what the reader inverts ----

  function VertexBytes(v: Vertex): (r: seq<bv8>)
    ensures |r| == 12
  {
    LeBytes(v.x) + LeBytes(v.y) + LeBytes(v.z)
  }

  /** A frame with the given triangle and attribute byte count `attr`. */
  function FrameBytes(t: Triangle, attr: Attribute): (r: seq<bv8>)
    ensures |r| == 50
  {
    VertexBytes(t.normal) + VertexBytes(t.v0) + VertexBytes(t.v1) + VertexBytes(t.v2) + attr
  }

  /** The two attribute bytes that end a frame; the decoder skips them. */
  type Attribute = s: seq<bv8> | |s| == 2 witness [0, 0]

  function FramesBytes(ts: seq<Triangle>, attr: Attribute): (r: seq<bv8>)
    ensures |r| == 50 * |ts|
  {
    if ts == [] then [] else FramesBytes(ts[..|ts| - 1], attr) + FrameBytes(ts[|ts| - 1], attr)
  }

  /** A whole file: header, count field, frames. The count field is passed
      as a word; a well-formed file has `count as nat == |ts|`. */
  function EncodeStl(header: seq<bv8>, count: bv32, ts: seq<Triangle>, attr: Attribute): (r: seq<bv8>)
    requires |header| == 80
    ensures |r| == FrameOffset(|ts|)
  {
    header + LeBytes(count) + FramesBytes(ts, attr)
  }

  /** `read_vertex` looks at the first 12 bytes only. */
  lemma ReadVertexPrefix(s: seq<bv8>, s': seq<bv8>)
    requires |s| >= 12 && |s'| >= 12 && s[..12] == s'[..12]
    ensures ReadVertex(s) == ReadVertex(s')
  {
    assert s[0] == s'[0] && s[1] == s'[1] && s[2] == s'[2] && s[3] == s'[3];
    assert s[4] == s'[4] && s[5] == s'[5] && s[6] == s'[6] && s[7] == s'[7];
    assert s[8] == s'[8] && s[9] == s'[9] && s[10] == s'[10] && s[11] == s'[11];
  }

  lemma ReadVertexBytes(v: Vertex)
    ensures ReadVertex(VertexBytes(v)) == v
  {
    var s := VertexBytes(v);
    assert s[0..4] == LeBytes(v.x) && s[4..8] == LeBytes(v.y) && s[8..12] == LeBytes(v.z);
    WordAtSlice(s, 0); WordAtSlice(s, 4); WordAtSlice(s, 8);
    DecodeEncodeWord(v.x); DecodeEncodeWord(v.y); DecodeEncodeWord(v.z);
  }

  /** The vertex whose encoding sits at `off` in `buf` is read back. */
  lemma ReadVertexAt(buf: seq<bv8>, off: nat, v: Vertex)
    requires off + 12 <= |buf| && buf[off..off + 12] == VertexBytes(v)
    ensures ReadVertex(buf[off..]) == v
  {
    assert buf[off..][..12] == VertexBytes(v)[..12];
    ReadVertexPrefix(buf[off..], VertexBytes(v));
    ReadVertexBytes(v);
  }

  /** The 50 bytes at `off` are the four 12-byte vertex fields and the two
      attribute bytes, each the prefix `read_vertex` sees. */
  lemma FrameSplit(buf: seq<bv8>, off: nat)
    requires off + 50 <= |buf|
    ensures buf[off..][..12] == buf[off..off + 12] && buf[off + 12..][..12] == buf[off + 12..off + 24]
    ensures buf[off + 24..][..12] == buf[off + 24..off + 36] && buf[off + 36..][..12] == buf[off + 36..off + 48]
    ensures buf[off..off + 50] == buf[off..off + 12] + buf[off + 12..off + 24] + buf[off + 24..off + 36]
                                  + buf[off + 36..off + 48] + buf[off + 48..off + 50]
  {
  }

  /** Re-encoding the four vertices read from a frame, with its attribute
      bytes, gives the frame back. */
  lemma FrameOfReads(buf: seq<bv8>, off: nat)
    requires off + 50 <= |buf|
    ensures FrameHolds(buf, off, Triangle(ReadVertex(buf[off..]), ReadVertex(buf[off + 12..]),
                                          ReadVertex(buf[off + 24..]), ReadVertex(buf[off + 36..])))
  {
    FrameSplit(buf, off);
    var n, a, b, c := ReadVertex(buf[off..]), ReadVertex(buf[off + 12..]),
                      ReadVertex(buf[off + 24..]), ReadVertex(buf[off + 36..]);
    assert VertexBytes(n) == buf[off..off + 12];
    assert VertexBytes(a) == buf[off + 12..off + 24];
    assert VertexBytes(b) == buf[off + 24..off + 36];
    assert VertexBytes(c) == buf[off + 36..off + 48];
  }

  /** Equal encodings come from equal vertices. */
  lemma VertexBytesInjective(v: Vertex, w: Vertex)
    requires VertexBytes(v) == VertexBytes(w)
    ensures v == w
  {
    ReadVertexBytes(v);
    ReadVertexBytes(w);
  }

  /** A triangle whose frame encoding sits at frame `i` is read back. */
  lemma ReadTriangleAt(buf: seq<bv8>, i: nat, t: Triangle, attr: Attribute)
    requires FrameOffset(i) + 50 <= |buf|
    requires buf[FrameOffset(i)..FrameOffset(i) + 50] == FrameBytes(t, attr)
    ensures ReadTriangle(buf, i) == t
  {
    var off := FrameOffset(i);
    var r := ReadTriangle(buf, i);
    var attr' := buf[off + 48..off + 50];
    FrameParts(VertexBytes(t.normal), VertexBytes(t.v0), VertexBytes(t.v1), VertexBytes(t.v2), attr);
    FrameParts(VertexBytes(r.normal), VertexBytes(r.v0), VertexBytes(r.v1), VertexBytes(r.v2), attr');
    VertexBytesInjective(r.normal, t.normal);
    VertexBytesInjective(r.v0, t.v0);
    VertexBytesInjective(r.v1, t.v1);
    VertexBytesInjective(r.v2, t.v2);
  }

  /** The vertex encoded `lo` bytes into the 50-byte frame at `off` is read back. */
  lemma FramePieceAt(buf: seq<bv8>, off: nat, lo: nat, v: Vertex)
    requires off + 50 <= |buf| && lo + 12 <= 50 && buf[off..off + 50][lo..lo + 12] == VertexBytes(v)
    ensures ReadVertex(buf[off + lo..]) == v
  {
    SliceOfSlice(buf, off, 50, lo, lo + 12);
    ReadVertexAt(buf, off + lo, v);
  }

  /** The four 12-byte pieces of a frame. */
  lemma FrameParts(a: seq<bv8>, b: seq<bv8>, c: seq<bv8>, d: seq<bv8>, e: seq<bv8>)
    requires |a| == 12 && |b| == 12 && |c| == 12 && |d| == 12
    ensures var f := a + b + c + d + e;
            f[0..12] == a && f[12..24] == b && f[24..36] == c && f[36..48] == d
  {
    var f := a + b + c + d + e;
    assert f == a + (b + (c + (d + e)));
    SliceOfConcatLeft(a, b + (c + (d + e)), 0, 12);
    SliceOfConcatShifted(a, b + (c + (d + e)), 0, 12);
    SliceOfConcatShifted(a, b + (c + (d + e)), 12, 24);
    SliceOfConcatShifted(a, b + (c + (d + e)), 24, 36);
    SliceOfConcatLeft(b, c + (d + e), 0, 12);
    SliceOfConcatShifted(b, c + (d + e), 12, 24);
    SliceOfConcatShifted(b, c + (d + e), 0, 12);
    SliceOfConcatLeft(c, d + e, 0, 12);
    SliceOfConcatShifted(c, d + e, 0, 12);
    SliceOfConcatLeft(d, e, 0, 12);
  }

  lemma SliceOfSlice<T>(s: seq<T>, off: nat, n: nat, lo: nat, hi: nat)
    requires off + n <= |s| && lo <= hi <= n
    ensures s[off..off + n][lo..hi] == s[off + lo..off + hi]
  {
    var a, b, c := s[off..off + n], s[off..off + n][lo..hi], s[off + lo..off + hi];
    assert |b| == |c|;
    forall k | 0 <= k < |b|
      ensures b[k] == c[k]
    {
      assert b[k] == a[lo + k] == s[off + lo + k];
    }
  }

  lemma SliceOfConcatLeft<T>(a: seq<T>, b: seq<T>, lo: nat, hi: nat)
    requires lo <= hi <= |a|
    ensures (a + b)[lo..hi] == a[lo..hi]
  {
  }

  lemma SliceOfConcatRight<T>(a: seq<T>, b: seq<T>)
    ensures (a + b)[|a|..|a| + |b|] == b
  {
  }

  /** Frame `i` of the encoding sits at `50 * i`. */
  lemma {:induction false} FramesBytesAt(ts: seq<Triangle>, attr: Attribute, i: nat)
    requires i < |ts|
    ensures FramesBytes(ts, attr)[50 * i..50 * i + 50] == FrameBytes(ts[i], attr)
  {
    var n := |ts| - 1;
    var prefix := FramesBytes(ts[..n], attr);
    var last := FrameBytes(ts[n], attr);
    assert FramesBytes(ts, attr) == prefix + last;
    if i < n {
      FramesBytesAt(ts[..n], attr, i);
      assert ts[..n][i] == ts[i];
      SliceOfConcatLeft(prefix, last, 50 * i, 50 * i + 50);
    } else {
      assert |prefix| == 50 * i && |last| == 50;
      SliceOfConcatRight(prefix, last);
    }
  }

  lemma SliceOfConcatShifted<T>(a: seq<T>, b: seq<T>, lo: nat, hi: nat)
    requires lo <= hi <= |b|
    ensures (a + b)[|a| + lo..|a| + hi] == b[lo..hi]
  {
  }

  /** The count field of an encoding is read back. */
  lemma EncodedCount(header: seq<bv8>, count: bv32, ts: seq<Triangle>, attr: Attribute)
    requires |header| == 80
    ensures ReadHeader(EncodeStl(header, count, ts, attr)) == Ok(count as nat)
  {
    var buf := EncodeStl(header, count, ts, attr);
    var field := LeBytes(count);
    assert buf == header + (field + FramesBytes(ts, attr));
    SliceOfConcatShifted(header, field + FramesBytes(ts, attr), 0, 4);
    SliceOfConcatLeft(field, FramesBytes(ts, attr), 0, 4);
    WordAtSlice(buf, 80);
    DecodeEncodeWord(count);
  }

  /** Frame `i` of an encoding holds the encoding of triangle `i`. */
  lemma EncodedFrame(header: seq<bv8>, count: bv32, ts: seq<Triangle>, attr: Attribute, i: nat)
    requires |header| == 80 && i < |ts|
    ensures FrameOffset(i) + 50 <= |EncodeStl(header, count, ts, attr)|
    ensures EncodeStl(header, count, ts, attr)[FrameOffset(i)..FrameOffset(i) + 50] == FrameBytes(ts[i], attr)
  {
    var prefix := header + LeBytes(count);
    var frames := FramesBytes(ts, attr);
    assert EncodeStl(header, count, ts, attr) == prefix + frames;
    FramesBytesAt(ts, attr, i);
    SliceOfConcatShifted(prefix, frames, 50 * i, 50 * i + 50);
  }

  /** The reader inverts the encoder: the count and every triangle come back,
      whatever the header and attribute bytes. */
  lemma DecodeEncode(header: seq<bv8>, count: bv32, ts: seq<Triangle>, attr: Attribute)
    requires |header| == 80 && count as nat == |ts|
    ensures ReadHeader(EncodeStl(header, count, ts, attr)) == Ok(|ts|)
    ensures DeclaredSizeCheck(|ts|, |EncodeStl(header, count, ts, attr)|).None?
    ensures Triangles(EncodeStl(header, count, ts, attr), |ts|) == ts
  {
    var buf := EncodeStl(header, count, ts, attr);
    EncodedCount(header, count, ts, attr);
    var decoded := Triangles(buf, |ts|);
    forall i | 0 <= i < |ts|
      ensures decoded[i] == ts[i]
    {
      EncodedFrame(header, count, ts, attr, i);
      ReadTriangleAt(buf, i, ts[i], attr);
    }
  }
}
