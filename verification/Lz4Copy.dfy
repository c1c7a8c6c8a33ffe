/** The decoder's copy routines: they write whole blocks, past the requested end, and still
    leave the requested prefix exactly as a byte-by-byte copy would. */
module Lz4Copy {
  import opened Bytes
  import opened MatchCopy

  const INC_32_TABLE: seq<int> := [0, 1, 2, 1, 0, 4, 4, 4]
  const DEC_64_TABLE: seq<int> := [0, 0, 0, -1, -4, 1, 2, 3]

  /** One block of input after `i` bytes of it. */
  method CopyBlockIn(dst: array<Byte>, d: nat, src: seq<Byte>, s: nat, i: nat, n: nat, ghost out: seq<Byte>)
    requires d + i + n <= dst.Length && s + i + n <= |src| && dst[..d + i] == out + src[s..s + i]
    modifies dst
    ensures dst[..d + i + n] == out + src[s..s + i + n]
  {
    CopyIn(dst, d + i, src, s + i, n);
    assert src[s..s + i] + src[s + i..s + i + n] == src[s..s + i + n];
  }

  /** `LZ4_wildCopy8` and `LZ4_wildCopy32` from the compressed input, `step` bytes at a time. */
  method WildCopyIn(dst: array<Byte>, d: nat, src: seq<Byte>, s: nat, e: nat, step: nat)
    requires 1 <= step && d <= e && d + step <= dst.Length && e + step - 1 <= dst.Length
    requires s + (e - d) + step <= |src|
    modifies dst
    ensures dst[..e] == old(dst[..d]) + src[s..s + (e - d)]
  {
    ghost var out := dst[..d];
    CopyBlockIn(dst, d, src, s, 0, step, out);
    var i := step;
    while d + i < e
      invariant step <= i && (i == step || d + i < e + step)
      invariant dst[..d + i] == out + src[s..s + i]
    {
      CopyBlockIn(dst, d, src, s, i, step, out);
      i := i + step;
    }
    assert dst[..e] == dst[..d + i][..e];
  }

  /** One block copy inside the output continues the match under way. */
  method CopyBlock(dst: array<Byte>, d: nat, s: nat, n: nat, ghost out: seq<Byte>, ghost offset: nat)
    requires s + n <= d && d + n <= dst.Length
    requires Copied(dst[..d], out, offset) && GoodDistance(offset, d - |out|, d - s)
    modifies dst
    ensures Copied(dst[..d + n], out, offset)
  {
    CopiedBlock(dst[..d], out, offset, d - s, n);
    CopyWithin(dst, d, s, n);
  }

  /** `LZ4_wildCopy8` inside the output, from a distance of at least one block. */
  method WildCopy8(dst: array<Byte>, d: nat, s: nat, e: nat, ghost out: seq<Byte>, ghost offset: nat)
    requires s + 8 <= d && |out| <= e && d + 8 <= dst.Length && e + 7 <= dst.Length
    requires Copied(dst[..d], out, offset) && GoodDistance(offset, d - |out|, d - s)
    modifies dst
    ensures Copied(dst[..e], out, offset)
  {
    hide Multiple, CopiedAt;
    CopyBlock(dst, d, s, 8, out, offset);
    var i := 8;
    while d + i < e
      invariant 8 <= i && (i == 8 || d + i < e + 8)
      invariant Copied(dst[..d + i], out, offset)
    {
      CopyBlock(dst, d + i, s + i, 8, out, offset);
      i := i + 8;
    }
    CopiedPrefix(dst[..d + i], e, out, offset);
    Beginning(dst, e, d + i);
  }

  /** `LZ4_wildCopy32` inside the output: two 16-byte copies a turn, for offsets of 16 or more. */
  method WildCopy32(dst: array<Byte>, d: nat, s: nat, e: nat)
    requires s + 16 <= d <= e && e + 32 <= dst.Length
    modifies dst
    ensures Copied(dst[..e], old(dst[..d]), d - s)
  {
    hide Copied, GoodDistance;
    ghost var out, offset := dst[..d], d - s;
    CopiedStart(out, offset);
    CopyBlock(dst, d, s, 16, out, offset);
    CopyBlock(dst, d + 16, s + 16, 16, out, offset);
    var i := 32;
    while d + i < e
      invariant 32 <= i && (i == 32 || d + i < e + 32)
      invariant Copied(dst[..d + i], out, offset)
    {
      CopyBlock(dst, d + i, s + i, 16, out, offset);
      CopyBlock(dst, d + i + 16, s + i + 16, 16, out, offset);
      i := i + 32;
    }
    CopiedPrefix(dst[..d + i], e, out, offset);
    Beginning(dst, e, d + i);
  }

  /** `op[k] = match[k]`: the byte copy that defines a match. */
  method CopyByte(dst: array<Byte>, op: nat, source: nat, ghost out: seq<Byte>, ghost offset: nat)
    requires source <= op < dst.Length && Copied(dst[..op], out, offset) && source == op - offset
    requires offset == 0 ==> dst[op] == 0
    modifies dst
    ensures Copied(dst[..op + 1], out, offset)
    ensures dst[op + 1..] == old(dst[op + 1..])
  {
    ghost var before := dst[..op];
    dst[op] := dst[source];
    ghost var after := dst[..op + 1];
    assert after[..op] == before;
    forall i | |out| <= i < op + 1 ensures CopiedAt(after, offset, i) {
      if i < op { assert CopiedAt(before, offset, i); }
    }
  }

  /** The four byte copies that open a match of small offset. */
  method FourBytes(dst: array<Byte>, op: nat, source: nat)
    requires source <= op && op + 4 <= dst.Length
    modifies dst
    ensures Copied(dst[..op + 4], old(dst[..op]), op - source)
  {
    ghost var out, offset := dst[..op], op - source;
    dst[op], dst[op + 1], dst[op + 2], dst[op + 3] := 0, 0, 0, 0;
    assert dst[op..op + 4] == [0, 0, 0, 0];
    var k := 0;
    while k < 4
      invariant 0 <= k <= 4
      invariant Copied(dst[..op + k], out, offset)
      invariant forall i :: op + k <= i < op + 4 ==> dst[i] == 0
    {
      CopyByte(dst, op + k, source + k, out, offset);
      k := k + 1;
    }
  }

  /** Both tables send the match pointer to a distance that is a multiple of the offset. */
  lemma TableDistances(offset: nat)
    requires offset < 8
    ensures
      var d4 := offset + 4 - INC_32_TABLE[offset];
      var d8 := offset + 8 - INC_32_TABLE[offset] + DEC_64_TABLE[offset];
      && d4 >= 4 && GoodDistance(offset, 4, d4)
      && d8 >= 8 && GoodDistance(offset, 8, d8)
  {
    if offset == 1 {
      assert Multiple(1, 2) && Multiple(1, 4) && Multiple(1, 6) && Multiple(1, 8);
    } else if offset == 2 {
      assert Multiple(2, 4) && Multiple(2, 8);
    } else if offset == 3 {
      assert Multiple(3, 3) && Multiple(3, 6) && Multiple(3, 9);
    } else if offset > 0 {
      assert Multiple(offset, offset) && Multiple(offset, 2 * offset);
    }
  }

  /** The table-driven first eight bytes of any match; afterwards eight-byte block copies from
      the returned pointer continue it. */
  method FirstEight(dst: array<Byte>, op: nat, offset: nat) returns (source: nat)
    requires offset <= op && op + 8 <= dst.Length
    modifies dst
    ensures Copied(dst[..op + 8], old(dst[..op]), offset)
    ensures source + 8 <= op + 8 && GoodDistance(offset, 8, op + 8 - source)
  {
    ghost var out := dst[..op];
    var from := op - offset;
    if offset < 8 {
      TableDistances(offset);
      FourBytes(dst, op, from);
      from := from + INC_32_TABLE[offset];
      CopyBlock(dst, op + 4, from, 4, out, offset);
      from := from - DEC_64_TABLE[offset];
    } else {
      assert Multiple(offset, offset) by { assert Multiple(offset, 0); }
      CopyBlock(dst, op, from, 8, out, offset);
      from := from + 8;
    }
    source := from;
  }

  /** The match loop of the byte-by-byte decoder. */
  method CopyBytes(dst: array<Byte>, op: nat, source: nat, e: nat, ghost out: seq<Byte>, ghost offset: nat)
    requires source < op <= dst.Length && e <= dst.Length
    requires Copied(dst[..op], out, offset) && GoodDistance(offset, op - |out|, op - source)
    modifies dst
    ensures op <= e ==> Copied(dst[..e], out, offset)
    ensures op > e ==> dst[..] == old(dst[..])
  {
    var d, s := op, source;
    while d < e
      invariant op <= d <= dst.Length && (d <= e || d == op) && d - s == op - source
      invariant Copied(dst[..d], out, offset)
      invariant d == op ==> dst[..] == old(dst[..])
    {
      CopyBlock(dst, d, s, 1, out, offset);
      d, s := d + 1, s + 1;
    }
  }

  /** Repeating an eight-byte pattern is a match copy for the offsets that divide eight. */
  lemma PatternCopied(out: seq<Byte>, offset: nat, v: seq<Byte>)
    requires offset == 1 || offset == 2 || offset == 4
    requires offset <= |out| && |v| == 8
    requires forall i :: 0 <= i < 8 ==> v[i] == out[|out| - offset + i % offset]
    ensures Copied(out + v, out, offset)
    ensures Multiple(offset, 8)
  {
    var all := out + v;
    forall i | |out| <= i < |all| ensures CopiedAt(all, offset, i) {
      var k := i - |out|;
      assert v[k] == out[|out| - offset + k % offset];
    }
    assert Multiple(offset, 2) || offset == 4;
    assert Multiple(offset, 4);
    assert Multiple(offset, 6) || offset == 4;
  }

  /** The eight bytes made of copies of a one-, two- or four-byte pattern. */
  function EightBytes(p: seq<Byte>): (v: seq<Byte>)
    requires |p| == 1 || |p| == 2 || |p| == 4
    ensures |v| == 8 && forall i :: 0 <= i < 8 ==> v[i] == p[i % |p|]
  {
    if |p| == 1 then p + p + p + p + p + p + p + p
    else if |p| == 2 then (p + p) + (p + p)
    else p + p
  }

  /** The pattern before `op`, repeated over eight bytes. */
  method FirstPattern(dst: array<Byte>, op: nat, offset: nat) returns (v: seq<Byte>)
    requires (offset == 1 || offset == 2 || offset == 4) && offset <= op && op + 8 <= dst.Length
    modifies dst
    ensures |v| == 8 && dst[op..op + 8] == v && Multiple(offset, 8)
    ensures Copied(dst[..op + 8], old(dst[..op]), offset)
  {
    hide Copied, Multiple;
    v := EightBytes(dst[op - offset..op]);
    PatternCopied(dst[..op], offset, v);
    CopyIn(dst, op, v, 0, 8);
    assert v[0..8] == v;
    assert dst[op..op + 8] == dst[..op + 8][op..];
  }

  method RepeatPattern(dst: array<Byte>, d: nat, v: seq<Byte>, ghost out: seq<Byte>, ghost offset: nat)
    requires d + 8 <= dst.Length && |v| == 8 && |out| + 8 <= d && (offset > 0 ==> Multiple(offset, 8))
    requires Copied(dst[..d], out, offset) && dst[d - 8..d] == v
    modifies dst
    ensures Copied(dst[..d + 8], out, offset) && dst[d..d + 8] == v
  {
    ghost var cur := dst[..d];
    CopiedBlock(cur, out, offset, 8, 8);
    assert cur[d - 8..d] == v;
    CopyIn(dst, d, v, 0, 8);
    assert v[0..8] == v;
    assert dst[d..d + 8] == dst[..d + 8][d..];
  }

  /** `LZ4_memcpy_using_offset` for the offsets it repeats as a pattern. */
  method CopyPattern(dst: array<Byte>, op: nat, offset: nat, e: nat)
    requires (offset == 1 || offset == 2 || offset == 4) && offset <= op <= e && e + 8 <= dst.Length
    modifies dst
    ensures Copied(dst[..e], old(dst[..op]), offset)
  {
    hide Copied, Multiple;
    ghost var out := dst[..op];
    var v := FirstPattern(dst, op, offset);
    var d := op + 8;
    while d < e
      invariant op + 8 <= d && (d == op + 8 || d < e + 8)
      invariant Copied(dst[..d], out, offset) && dst[d - 8..d] == v
    {
      RepeatPattern(dst, d, v, out, offset);
      d := d + 8;
    }
    CopiedPrefix(dst[..d], e, out, offset);
    Beginning(dst, e, d);
  }

  /** `LZ4_memcpy_using_offset`. */
  method CopyUsingOffset(dst: array<Byte>, op: nat, offset: nat, e: nat)
    requires offset <= op && op + 4 <= e && e + 12 <= dst.Length
    modifies dst
    ensures Copied(dst[..e], old(dst[..op]), offset)
  {
    ghost var out := dst[..op];
    if offset == 1 || offset == 2 || offset == 4 {
      CopyPattern(dst, op, offset, e);
    } else {
      var source := FirstEight(dst, op, offset);
      WildCopy8(dst, op + 8, source, e, out, offset);
    }
  }
}
