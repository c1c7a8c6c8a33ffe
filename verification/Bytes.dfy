/** Bytes, the optional value, and the two memory copies every codec routine is built from. */
module Bytes {

  type Byte = x: int | 0 <= x < 256

  datatype Option<+T> = None | Some(value: T)

  /** `memcpy` from a read-only buffer into `dst`. */
  method CopyIn(dst: array<Byte>, d: nat, src: seq<Byte>, s: nat, n: nat)
    requires d + n <= dst.Length && s + n <= |src|
    modifies dst
    ensures dst[..d + n] == old(dst[..d]) + src[s..s + n]
  {
    forall i | 0 <= i < n { dst[d + i] := src[s + i]; }
  }

  /** `memcpy` inside one buffer; like C, only for ranges that do not overlap. */
  method CopyWithin(dst: array<Byte>, d: nat, s: nat, n: nat)
    requires s + n <= d && d + n <= dst.Length
    modifies dst
    ensures dst[..d + n] == old(dst[..d]) + old(dst[..d])[s..s + n]
  {
    ghost var before := dst[..d];
    forall i | 0 <= i < n { dst[d + i] := dst[s + i]; }
    assert dst[..d + n] == before + before[s..s + n];
  }

  /** The beginning of the beginning of a buffer. */
  lemma Beginning(a: array<Byte>, e: nat, d: nat)
    requires e <= d <= a.Length
    ensures a[..d][..e] == a[..e]
  {
  }

  /** A piece of the beginning of a buffer. */
  lemma Piece(a: array<Byte>, i: nat, j: nat, d: nat)
    requires i <= j <= d <= a.Length
    ensures a[..d][i..j] == a[i..j]
  {
  }

  /** Stores into the middle of a buffer. */
  method Store(dst: array<Byte>, d: nat, data: seq<Byte>)
    requires d + |data| <= dst.Length
    modifies dst
    ensures dst[..d] == old(dst[..d]) && dst[d..d + |data|] == data
    ensures dst[d + |data|..] == old(dst[d + |data|..])
  {
    forall i | 0 <= i < |data| { dst[d + i] := data[i]; }
  }

  /** A part of a part. */
  lemma Part(src: seq<Byte>, ip: nat, s: seq<Byte>, i: nat, j: nat)
    requires i <= j <= |s| && ip + |s| <= |src| && src[ip..ip + |s|] == s
    ensures src[ip + i..ip + j] == s[i..j]
  {
    forall k | 0 <= k < j - i ensures src[ip + i..ip + j][k] == s[i..j][k] {
      assert src[ip..ip + |s|][i + k] == src[ip + i + k];
    }
  }
}
