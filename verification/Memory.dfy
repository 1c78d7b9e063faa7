/** Copying in arrays. */
module Memory {

  /** bcopy and memmove: copies n entries, also between overlapping ranges. */
  method Bcopy<T>(src: array<T>, from: nat, dst: array<T>, to: nat, n: nat)
    requires from + n <= src.Length && to + n <= dst.Length
    modifies dst
    ensures dst[..] == old(dst[..])[..to] + old(src[..])[from..from + n] + old(dst[..])[to + n..]
  {
    forall k | 0 <= k < n {
      dst[to + k] := src[from + k];
    }
  }
}
