/** Shared vocabulary of the deduplication scanner: bytes, 4096-byte blocks,
    the 64-bit checksum type, the file as a sequence of blocks and the
    explicit u64 subtraction that the match check depends on. */
module Blocks {

  newtype byte = x: int | 0 <= x < 0x100
  newtype u64 = x: int | 0 <= x < 0x1_0000_0000_0000_0000

  /** The content of one block as it is read from the file. */
  type Block = seq<byte>

  /** The CRC of a block (CRC-64/ECMA-182 in the program) is passed around as
      a pure function value; no property depends on the polynomial. */
  type Checksum = Block -> u64

  const BlockSize: nat := 4096

  datatype Option<T> = None | Some(value: T)

  /** Arithmetic faults of the program; only one is reachable. */
  datatype Error = SubtractionUnderflow

  datatype Result<T> = Ok(value: T) | Err(error: Error)

  function Min(a: nat, b: nat): (m: nat)
    ensures m <= a && m <= b && (m == a || m == b)
  {
    if a > b then b else a
  }

  /** `file_size / 4096 + 1`: one more than the number of whole blocks, so
      that the trailing partial block (or an empty one) is also visited. */
  function BlockCount(fileSize: nat): (n: nat)
    ensures n >= 1
    ensures (n - 1) * BlockSize <= fileSize < n * BlockSize
  {
    fileSize / BlockSize + 1
  }

  /** Subtraction on u64 with the underflow made visible: `None` is the
      abort that `a - b` with `b > a` causes. */
  function CheckedSub(a: nat, b: nat): (r: Option<nat>)
    ensures r.Some? <==> b <= a
    ensures r.Some? ==> r.value + b == a
  {
    if b <= a then Some(a - b) else None
  }

  /** Block `i` is usable for extension against block `j`: it is not a hole
      (its CRC is not the 0 sentinel) and its bytes equal those of block `j`. */
  predicate Matched(b: seq<Block>, crc: Checksum, i: nat, j: nat)
    requires i < |b| && j < |b|
  {
    crc(b[i]) != 0 && b[i] == b[j]
  }

}
