/** The value types of the decoder: vertices compared by exact bit pattern
    (src/lib.rs:15-29, 46-52), undirected edges (src/lib.rs:54-77), and the
    f32 values written to the normal buffer. */
module Geometry {

  /** Three f32 coordinates, each kept as its IEEE-754 bit pattern. The face
      normal of a triangle is read with the same routine and has the same shape. */
  datatype Vertex = Vertex(x: bv32, y: bv32, z: bv32)

  /** Coordinate `c` (0 = x, 1 = y, 2 = z). */
  function Coord(v: Vertex, c: nat): bv32
    requires c < 3
  {
    if c == 0 then v.x else if c == 1 then v.y else v.z
  }

  /** `Vertex::eq`: every coordinate's `to_bits()` matches (src/lib.rs:23-29). */
  predicate SameBits(p: Vertex, q: Vertex)
    ensures SameBits(p, q) <==> p == q
  {
    p.x == q.x && p.y == q.y && p.z == q.z
  }

  /** What `Vertex::hash` feeds to the hasher: the three bit patterns in order
      (src/lib.rs:46-52). */
  function VertexHashInput(v: Vertex): (k: (bv32, bv32, bv32))
    ensures Vertex(k.0, k.1, k.2) == v
  {
    (v.x, v.y, v.z)
  }

  /** Bit-pattern equality is exactly value equality of the model, so a Dafny
      `map<Vertex, _>` has the keys of the source's `HashMap<Vertex, _>`; and
      the hash input agrees with it in both directions. */
  lemma SameBitsIsEquality(p: Vertex, q: Vertex)
    ensures SameBits(p, q) <==> p == q
    ensures SameBits(p, q) <==> VertexHashInput(p) == VertexHashInput(q)
  {
  }

  /** Two vertices whose bit patterns differ in any single coordinate are
      different vertices (one flipped bit is enough). */
  lemma OneBitApart(p: Vertex, c: nat, bit: nat)
    requires c < 3 && bit < 32
    ensures var q := if c == 0 then p.(x := p.x ^ (1 as bv32 << bit))
                     else if c == 1 then p.(y := p.y ^ (1 as bv32 << bit))
                     else p.(z := p.z ^ (1 as bv32 << bit));
            !SameBits(p, q)
  {
  }

  /** A pair of vertex indices; the source's `Edge { a: u32, b: u32 }`. */
  datatype Edge = Edge(a: nat, b: nat)

  /** `Edge::eq`: equal also when a and b are swapped (src/lib.rs:60-65). */
  predicate SameEdge(e: Edge, f: Edge)
    ensures SameEdge(e, f) <==> multiset{e.a, e.b} == multiset{f.a, f.b}
  {
    (e.a == f.a && e.b == f.b) || (e.a == f.b && e.b == f.a)
  }

  /** What `Edge::hash` feeds to the hasher: the endpoints as (larger, smaller)
      (src/lib.rs:67-77). */
  function EdgeHashInput(e: Edge): (k: (nat, nat))
    ensures k.0 >= k.1
    ensures (k.0 == e.a && k.1 == e.b) || (k.0 == e.b && k.1 == e.a)
  {
    if e.a > e.b then (e.a, e.b) else (e.b, e.a)
  }

  /** `Edge::eq` is an equivalence relation, as `HashSet` requires of `Eq`. */
  lemma SameEdgeIsEquivalence(e: Edge, f: Edge, g: Edge)
    ensures SameEdge(e, e)
    ensures SameEdge(e, f) ==> SameEdge(f, e)
    ensures SameEdge(e, f) && SameEdge(f, g) ==> SameEdge(e, g)
  {
  }

  /** The hash input agrees with `Edge::eq` in both directions: equal edges
      hash alike (what `Hash` must guarantee), and edges with the same hash
      input are equal, so the canonical pair identifies an edge of the
      `HashSet<Edge>`. */
  lemma EdgeHashAgrees(e: Edge, f: Edge)
    ensures SameEdge(e, f) <==> EdgeHashInput(e) == EdgeHashInput(f)
  {
    var ke, kf := EdgeHashInput(e), EdgeHashInput(f);
    if ke == kf {
      assert (e.a == kf.0 && e.b == kf.1) || (e.a == kf.1 && e.b == kf.0);
    }
  }

  /** An f32 value of the normal buffer. IEEE-754 arithmetic is not modelled:
      `Add` and `Div` are free constructors, so a term records exactly which
      face normals were summed, in which order, and by what count the sum was
      divided. `Bits` is a value taken as is (read from the file or left in the
      buffer by the caller). */
  datatype F32 = Bits(w: bv32) | Add(l: F32, r: F32) | Div(n: F32, d: nat)
}
