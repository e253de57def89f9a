/** Small things that several models share. */
module Basics {

  datatype Option<T> = None | Some(value: T)

  function Min(a: int, b: int): int {
    if a < b then a else b
  }

  function Max(a: int, b: int): int {
    if a > b then a else b
  }

  /** One row of a two-dimensional buffer. */
  ghost function Row(buf: array2<bv8>, i: nat): (row: seq<bv8>)
    requires i < buf.Length0
    reads buf
    ensures |row| == buf.Length1
    ensures forall k | 0 <= k < buf.Length1 :: row[k] == buf[i, k]
  {
    seq(buf.Length1, k requires 0 <= k < buf.Length1 reads buf => buf[i, k])
  }

  lemma Regroup<T>(a: seq<T>, b: seq<T>, c: seq<T>)
    ensures a + (b + c) == a + b + c
  {
  }
}
