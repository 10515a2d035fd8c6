/** Capacity preflight: `check_sufficient_memory` (src/lib.rs:251-301). Given
    the declared triangle count and the lengths of the four caller-owned
    buffers, it names the first buffer, in a fixed order, that is shorter
    than the decoder asks for. */
module Preflight {
  import opened StlErrors

  /** Elements required of the vertex and of the normal buffer: three floats
      for each of `t / 2 + 2` vertices, the vertex count of a closed mesh of
      genus 0 with `t` triangles (src/lib.rs:258). */
  function VertexSlots(t: nat): nat {
    3 * (t / 2 + 2)
  }

  /** Elements required of each index buffer (src/lib.rs:279). */
  function IndexSlots(t: nat): nat {
    3 * t
  }

  /** The four requirements together. */
  predicate Adequate(t: nat, vLen: nat, nLen: nat, viLen: nat, eiLen: nat) {
    vLen >= VertexSlots(t) && nLen >= VertexSlots(t) && viLen >= IndexSlots(t) && eiLen >= IndexSlots(t)
  }

  /** None when all four buffers are large enough; otherwise the error for
      the first short buffer in the order vertices, normals, vertex indices,
      edge indices. */
  function CheckSufficientMemory(t: nat, vLen: nat, nLen: nat, viLen: nat, eiLen: nat): (r: Option<ParseError>)
    ensures r.None? <==> Adequate(t, vLen, nLen, viLen, eiLen)
    ensures r == Some(InsufficientBuffer(Vertices, vLen, VertexSlots(t), t)) <==> vLen < VertexSlots(t)
    ensures r == Some(InsufficientBuffer(Normals, nLen, VertexSlots(t), t)) <==>
            vLen >= VertexSlots(t) && nLen < VertexSlots(t)
    ensures r == Some(InsufficientBuffer(VertexIndices, viLen, IndexSlots(t), t)) <==>
            vLen >= VertexSlots(t) && nLen >= VertexSlots(t) && viLen < IndexSlots(t)
    ensures r == Some(InsufficientBuffer(EdgeIndices, eiLen, IndexSlots(t), t)) <==>
            vLen >= VertexSlots(t) && nLen >= VertexSlots(t) && viLen >= IndexSlots(t) && eiLen < IndexSlots(t)
  {
    if vLen < VertexSlots(t) then Some(InsufficientBuffer(Vertices, vLen, VertexSlots(t), t))
    else if nLen < VertexSlots(t) then Some(InsufficientBuffer(Normals, nLen, VertexSlots(t), t))
    else if viLen < IndexSlots(t) then Some(InsufficientBuffer(VertexIndices, viLen, IndexSlots(t), t))
    else if eiLen < IndexSlots(t) then Some(InsufficientBuffer(EdgeIndices, eiLen, IndexSlots(t), t))
    else None
  }

  /** Each buffer is checked on its own: making one buffer short while the
      others are adequate yields exactly the error that names it. */
  lemma EachShortBufferIsNamed(t: nat, vLen: nat, nLen: nat, viLen: nat, eiLen: nat)
    requires Adequate(t, vLen, nLen, viLen, eiLen)
    ensures CheckSufficientMemory(t, VertexSlots(t) - 1, nLen, viLen, eiLen)
              == Some(InsufficientBuffer(Vertices, VertexSlots(t) - 1, VertexSlots(t), t))
    ensures CheckSufficientMemory(t, vLen, VertexSlots(t) - 1, viLen, eiLen)
              == Some(InsufficientBuffer(Normals, VertexSlots(t) - 1, VertexSlots(t), t))
    ensures t > 0 ==>
              CheckSufficientMemory(t, vLen, nLen, IndexSlots(t) - 1, eiLen)
              == Some(InsufficientBuffer(VertexIndices, IndexSlots(t) - 1, IndexSlots(t), t))
    ensures t > 0 ==>
              CheckSufficientMemory(t, vLen, nLen, viLen, IndexSlots(t) - 1)
              == Some(InsufficientBuffer(EdgeIndices, IndexSlots(t) - 1, IndexSlots(t), t))
  {
  }
}
