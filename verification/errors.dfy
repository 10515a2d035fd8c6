/** The decoder's failures. The source returns `Option<String>` (None on
    success); each message becomes a constructor carrying the numbers the
    message reports. */
module StlErrors {

  /** The buffer an error names: the four caller-owned outputs and the
      decoder's own `norm_count` scratch vector. */
  datatype BufferName = Vertices | Normals | VertexIndices | EdgeIndices | NormCount

  datatype ParseError =
    /** Fewer than 80 bytes (src/lib.rs:87-91). */
    | HeaderTooSmall
    /** 80 to 83 bytes: the triangle count is cut off (src/lib.rs:92-96). */
    | CountMissing
    /** `declared` triangles need more than the `len` bytes present (src/lib.rs:107-114). */
    | SizeMismatch(declared: nat, len: nat)
    /** The preflight found `buffer` holding `len` elements, `required` needed for
        `triangles` triangles (src/lib.rs:251-301). */
    | InsufficientBuffer(buffer: BufferName, len: nat, required: nat, triangles: nat)
    /** An in-loop bound check on `buffer` failed at `index` (what the message
        reports) against length `len`, while decoding triangle `triangle`
        (src/lib.rs:140-198). */
    | BoundExceeded(buffer: BufferName, index: nat, len: nat, triangle: nat)

  /** How a call ends: `Success` is the source's `None`; `Failure` its
      `Some(message)`; `Panic` an out-of-range write to `e_indices`, which the
      source does not check and which aborts instead of returning
      (src/lib.rs:211-212, 222-223, 233-234). */
  datatype Outcome = Success | Failure(error: ParseError) | Panic(index: nat, len: nat)

  datatype Result<T> = Ok(value: T) | Err(error: ParseError)

  datatype Option<T> = None | Some(value: T)
}
