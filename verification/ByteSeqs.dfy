/** Byte strings, and the resizing that `Vec::resize(n, 0)` does to them. */
module ByteSeqs {
  import opened Wrappers

  type Byte = b: int | 0 <= b < 256

  type Bytes = seq<Byte>

  function Zeros(n: nat): (z: Bytes)
    ensures |z| == n && forall i :: 0 <= i < n ==> z[i] == 0
  {
    seq(n, _ => 0)
  }

  function Resize(b: Bytes, n: nat): (r: Bytes)
    ensures |r| == n
    ensures forall i :: 0 <= i < n ==> r[i] == if i < |b| then b[i] else 0
  {
    if n <= |b| then b[..n] else b + Zeros(n - |b|)
  }

  /** `data` written over `b` at `offset`, which must lie within `b` with all of `data`. */
  function Splice(b: Bytes, offset: nat, data: Bytes): (r: Bytes)
    requires offset + |data| <= |b|
    ensures |r| == |b|
    ensures forall i :: 0 <= i < |b| ==> r[i] == if offset <= i < offset + |data| then data[i - offset] else b[i]
  {
    b[..offset] + data + b[offset + |data|..]
  }

  /** The bytes of `b` from `offset`, at most `size` of them. */
  function Slice(b: Bytes, offset: nat, size: nat): (r: Bytes)
    ensures |r| == if offset >= |b| then 0 else Min(size, |b| - offset)
    ensures forall i :: 0 <= i < |r| ==> r[i] == b[offset + i]
  {
    if offset >= |b| then [] else b[offset..Min(offset + size, |b|)]
  }
}
