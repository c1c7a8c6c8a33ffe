/** The compressor against both decoders. */
module Lz4RoundTrip {
  import opened Bytes
  import opened MatchCopy
  import opened Lz4Format
  import opened Lz4Accept
  import Lz4Compress
  import Lz4Reference
  import Lz4Decompress

  /** The byte-by-byte decoder consumes a whole block exactly if the block is legal, and yields
      its meaning. */
  lemma SimpleDecodesLegal(block: seq<Byte>, size: nat)
    ensures Legal(block, size) <==>
      exists out :: SimpleFrom(block, 0, [], size) == Done(out, |block|)
    ensures Legal(block, size) ==>
      Meaning(block).Some? && |Meaning(block).value| == size
      && SimpleFrom(block, 0, [], size) == Done(Meaning(block).value, |block|)
  {
    LegalIffSimple(block, 0, [], size);
  }

  /** The legal blocks for an empty output are the single bytes below 16. */
  lemma EmptyOutput(block: seq<Byte>)
    ensures Legal(block, 0) <==> |block| == 1 && block[0] < 16
  {
    if Legal(block, 0) {
      ShortBlock(block, 0);
    } else if |block| == 1 && block[0] < 16 {
      LastStep(block, 0, 0, 1, [], 0);
    }
  }

  /** A legal block that decodes to at most twelve bytes is one run of literals: it holds no match. */
  lemma ShortBlock(block: seq<Byte>, size: nat)
    requires Legal(block, size) && size <= MF_LIMIT
    ensures block != [] && size < |block| && Meaning(block) == Some(block[|block| - size..])
    ensures ReadLength(block, block[0] / 16, 1) == Some((size, |block| - size))
  {
    hide ReadLength;
    var len := if block != [] then ReadLength(block, block[0] / 16, 1) else None;
    if len.Some? && len.value.1 + len.value.0 == |block| {
      LastStep(block, 0, len.value.0, len.value.1, [], size);
      assert [] + block[len.value.1..] == block[len.value.1..];
    } else if len.Some? && len.value.1 + len.value.0 + 2 <= |block|
      && ReadLength(block, block[0] % 16, len.value.1 + len.value.0 + 2).Some? {
      var (mc, j) := ReadLength(block, block[0] % 16, len.value.1 + len.value.0 + 2).value;
      SequenceMeans(block, 0, len.value.0, len.value.1, mc, j, [], size);
    } else {
      BrokenSequence(block, 0, [], size);
    }
  }

  /** The optimised decoder refines the byte-by-byte one: on every block that one decodes, it
      produces the same bytes. */
  method DecodeBoth(block: seq<Byte>, size: nat) returns (simple: seq<Byte>, r: int, safe: seq<Byte>)
    requires Legal(block, size) && (size == 0 ==> block == [0])
    ensures r == size && safe == simple && Meaning(block) == Some(simple)
  {
    SimpleDecodesLegal(block, size);
    hide Meaning, Legal;
    var a, b := new Byte[size], new Byte[size];
    var n := Lz4Decompress.DecompressUnsafe(block, a);
    r := Lz4Decompress.DecompressSafe(block, b);
    simple, safe := a[..], b[..];
    assert b[..size] == b[..];
  }

  /** Into an empty output the byte-by-byte decoder takes each of the sixteen legal blocks, the
      optimised one only zero. */
  method DecodeEmpty(block: seq<Byte>) returns (n: int, r: int)
    requires Legal(block, 0)
    ensures n == 1 && r == (if block == [0] then 0 else -1) && |block| == 1 && block[0] < 16
  {
    EmptyOutput(block);
    SimpleDecodesLegal(block, 0);
    hide Meaning, Legal;
    var a := new Byte[0];
    n := Lz4Decompress.DecompressUnsafe(block, a);
    r := Lz4Decompress.DecompressSafe(block, a);
  }

  /** One literal and a match of `mc + 4` bytes at offset 1, byte by byte. */
  function LiteralThenMatch(b: Byte, mc: nat): seq<Byte>
  {
    if mc < 15 then [16 + mc, b, 1, 0]
    else [16 + 15, b, 1, 0] + (seq((mc - 15) / 255, _ => 255) + [(mc - 15) % 255])
  }

  lemma LiteralThenMatchEncodes(b: Byte, mc: nat)
    ensures EncodeSequence([b], 1, mc) == LiteralThenMatch(b, mc)
  {
    hide LongBytes, Lz4Compress.Ones;
    assert EncodeSequence([b], 1, mc) == ([16 + Nibble(mc)] + [] + [b] + [1, 0]) + ExtraBytes(mc);
    assert [16 + Nibble(mc)] + [] + [b] + [1, 0] == [16 + Nibble(mc), b, 1, 0];
    if mc >= 15 {
      Lz4Compress.LongBytesAreOnes(mc - 15);
      OnesAre((mc - 15) / 255);
    } else {
      assert [16 + Nibble(mc), b, 1, 0] + [] == [16 + Nibble(mc), b, 1, 0];
    }
  }

  lemma OnesAre(k: nat)
    ensures Lz4Compress.Ones(k) == seq(k, _ => 255)
  {
  }

  /** What LZ4 makes of `n` equal bytes: literals if there are at most twelve; else one literal, a match of
      all but six at offset 1, and five literals. */
  function RunBlock(b: Byte, n: nat): seq<Byte>
  {
    if n <= 12 then [16 * n] + seq(n, _ => b) else LiteralThenMatch(b, n - 10) + [80, b, b, b, b, b]
  }

  /** Equal bytes are compressed to exactly that block, by any hash functions, and it decodes to them with
      either decoder. */
  method CompressRun(b: Byte, n: nat, hash16: seq<Byte> -> nat, hash32: seq<Byte> -> nat)
    returns (block: seq<Byte>, simple: seq<Byte>, safe: seq<Byte>)
    requires n <= 0x7E00_0000 && Lz4Reference.Hashes(hash16, 8192) && Lz4Reference.Hashes(hash32, 4096)
    ensures block == RunBlock(b, n) && simple == safe == seq(n, _ => b)
  {
    hide Meaning, Legal, RunBlock, Lz4Reference.Hashes;
    var src := seq(n, _ => b);
    var dst := new Byte[n + n / 255 + 16];
    var r := Lz4Compress.CompressFast(src, dst, hash16, hash32);
    block := dst[..r];
    RunReference(b, n, src, hash16, hash32);
    var m;
    simple, m, safe := DecodeBoth(block, n);
  }

  lemma RunReference(b: Byte, n: nat, src: seq<Byte>, hash16: seq<Byte> -> nat, hash32: seq<Byte> -> nat)
    requires Lz4Reference.Hashes(hash16, 8192) && Lz4Reference.Hashes(hash32, 4096) && src == seq(n, _ => b)
    ensures Lz4Reference.Reference(src, hash16, hash32) == RunBlock(b, n) && (n == 0 ==> RunBlock(b, n) == [0])
  {
    hide EncodeSequence, LiteralThenMatch, Lz4Reference.Block;
    if n <= 12 {
      assert [16 * n] + [] == [16 * n];
    } else {
      var c := if n < 65547 then Lz4Reference.Job(src, Lz4Reference.ByU16, hash16)
               else Lz4Reference.Job(src, Lz4Reference.ByU32, hash32);
      Lz4Reference.RunReference(c, seq(if n < 65547 then 8192 else 4096, _ => 0));
      assert src[n - 5..] == [b, b, b, b, b];
      assert EncodeLast([b, b, b, b, b]) == [80] + [] + [b, b, b, b, b] == [80, b, b, b, b, b];
      LiteralThenMatchEncodes(b, n - 10);
    }
  }

  /** A match at offset 1 that leaves fewer than five bytes is refused, whoever reads it. */
  lemma LateRefused(src: seq<Byte>, b: Byte, mc: nat, j: nat, n: nat)
    requires n >= 13 && |src| > 2 && n < 1 + mc + 4 + 5 && Lz4Compress.ReadsBack(src, 0, [b], 1, mc, j)
    ensures SimpleFrom(src, 0, [], n) == Reject && !Takes(src, n)
  {
    var (ll, i) := ReadLength(src, src[0] / 16, 1).value;
    LengthFacts(src, src[0] / 16, 1);
    hide ReadLength;
    assert [] + src[i..i + ll] == [b];
    var code := src[0] % 16;
    assert !TakesCopy(src, 1, mc + 4, j, 1, n, true) && !TakesCopy(src, 1, mc + 4, j, 1, n, false);
    assert !TakesMatch(src, 1, code, i + ll + 2, 1, n, Fast) && !TakesMatch(src, 1, code, i + ll + 2, 1, n, Safe);
    assert !TakesMatch(src, 1, code, i + ll + 2, 1, n, Shortcut) && !TakesLiterals(src, code, ll, i, 0, n);
  }

  /** A block of one literal, a match that ends fewer than five bytes before the end of the output, and
      `last` literals is refused by both decoders. */
  method RefuseLate(b: Byte, mc: nat, last: nat) returns (simple: int, safe: int)
    requires last < 5 && 1 + mc + 4 + last >= 13
    ensures simple == -1 && safe < 0
  {
    hide SimpleFrom, Takes, LiteralThenMatch;
    var block := LiteralThenMatch(b, mc) + [16 * last] + seq(last, _ => b);
    LiteralThenMatchEncodes(b, mc);
    ghost var s := EncodeSequence([b], 1, mc);
    assert block[0..|s|] == s;
    Lz4Compress.ReadSequence(block, 0, [b], 1, mc);
    LateRefused(block, b, mc, |s|, 1 + mc + 4 + last);
    var dst := new Byte[1 + mc + 4 + last];
    assert dst[..0] == [];
    simple := Lz4Decompress.DecompressUnsafe(block, dst);
    safe := Lz4Decompress.DecompressSafe(block, dst);
  }

  /** The safe decoder accepts more than the format allows: in its shortcut it does not look whether a
      match leaves five bytes. Fourteen literals and a match of eighteen fill an output of 32 bytes. */
  method AcceptLate(lits: seq<Byte>, offset: nat) returns (simple: int, safe: int)
    requires |lits| == 14 && 8 <= offset <= 14
    ensures simple == -1 && safe == 32
  {
    var block := [16 * 14 + 14] + lits + [offset, 0, 0];
    assert block[0] == 238 && block[15] == offset && block[16] == 0 && block[17] == 0 && block[1..15] == lits;
    ShortcutTakes(block, offset);
    hide SimpleFrom, Takes, Meaning;
    var dst := new Byte[32];
    assert dst[..0] == [];
    simple := Lz4Decompress.DecompressUnsafe(block, dst);
    safe := Lz4Decompress.DecompressSafe(block, dst);
  }

  lemma ShortcutTakes(src: seq<Byte>, offset: nat)
    requires |src| == 18 && src[0] == 238 && src[15] == offset && src[16] == 0 && src[17] == 0 && 8 <= offset <= 14
    ensures SimpleFrom(src, 0, [], 32) == Reject && Takes(src, 32)
    ensures Meaning(src).Some? && |Meaning(src).value| == 32
  {
    hide CopyMatch;
    assert ReadLength(src, 14, 1) == Some((14, 1)) && ReadLength(src, 14, 17) == Some((14, 17));
    assert ReadLength(src, 0, 18) == Some((0, 18)) && U16(src, 15) == offset;
    var lit := [] + src[1..15];
    assert SimpleMatch(src, 14, 15, lit, 32) == Reject;
    assert TakesLiterals(src, 0, 0, 18, 32, 32) && TakesToken(src, 17, 32, 32, false);
    assert TakesMatch(src, offset, 14, 17, 14, 32, Shortcut);
    LastStep(src, 17, 0, 18, CopyMatch(lit, offset, 18), 32);
    SequenceStep(src, 0, 14, 1, 14, 17, [], 32);
  }

  /** What is compressed, by any hash functions, decodes to itself with either decoder, and is
      never larger than the bound. */
  method CompressAndDecode(src: seq<Byte>, hash16: seq<Byte> -> nat, hash32: seq<Byte> -> nat)
    returns (block: seq<Byte>, simple: seq<Byte>, safe: seq<Byte>)
    requires |src| <= MAX_INPUT_SIZE && Lz4Reference.Hashes(hash16, 8192) && Lz4Reference.Hashes(hash32, 4096)
    ensures |block| <= CompressBound(|src|) && simple == src && safe == src
  {
    hide Meaning, Legal;
    var dst := new Byte[CompressBound(|src|)];
    var r := Lz4Compress.CompressFast(src, dst, hash16, hash32);
    block := dst[..r];
    var n;
    simple, n, safe := DecodeBoth(block, |src|);
  }
}
