/** Truncated blocks: what is left of a legal block never decodes to as many bytes as the whole. */
module Lz4Truncate {
  import opened Bytes
  import opened MatchCopy
  import opened Lz4Format

  lemma {:induction false} ReadLongPrefix(src: seq<Byte>, k: nat, i: nat)
    requires k <= |src| && ReadLong(src[..k], i).Some?
    ensures ReadLong(src, i) == ReadLong(src[..k], i)
    decreases |src| - i
  {
    if src[i] == 255 { ReadLongPrefix(src, k, i + 1); }
  }

  lemma ReadLengthPrefix(src: seq<Byte>, k: nat, nibble: nat, i: nat)
    requires i <= k <= |src| && ReadLength(src[..k], nibble, i).Some?
    ensures ReadLength(src, nibble, i) == ReadLength(src[..k], nibble, i)
  {
    if nibble == 15 { ReadLongPrefix(src, k, i); }
  }

  lemma SamePieces(src: seq<Byte>, k: nat, i: nat, j: nat)
    requires i <= j && j + 2 <= k <= |src|
    ensures src[..k][i..j] == src[i..j] && U16(src[..k], j) == U16(src, j)
  {
  }

  /** Literals that do not end a legal block leave room for a match behind them. */
  lemma LiteralsBefore(src: seq<Byte>, ip: nat, ll: nat, i: nat, op: nat, size: nat)
    requires ip < |src| && ReadLength(src, src[ip] / 16, ip + 1) == Some((ll, i))
    requires LegalFrom(src, ip, op, size) && i + ll != |src|
    ensures op + ll + MF_LIMIT <= size
  {
    assert LegalLiterals(src, src[ip] % 16, ll, i, op, size);
  }

  lemma {:induction false} TruncatedFrom(src: seq<Byte>, k: nat, ip: nat, out: seq<Byte>, size: nat)
    requires ip <= k < |src| && LegalFrom(src, ip, |out|, size)
    ensures
      var m := MeaningFrom(src[..k], ip, out);
      m.Some? ==> |m.value| < size
    decreases k - ip
  {
    hide ReadLength, MeaningFrom, LegalFrom, CopyMatch, U16;
    var p := src[..k];
    var len := if ip < k then ReadLength(p, p[ip] / 16, ip + 1) else None;
    if len.Some? && len.value.1 + len.value.0 == k {
      var (ll, i) := len.value;
      ReadLengthPrefix(src, k, src[ip] / 16, ip + 1);
      LastStep(p, ip, ll, i, out, size);
      LiteralsBefore(src, ip, ll, i, |out|, size);
    } else if len.Some? && len.value.1 + len.value.0 + 2 <= k
      && ReadLength(p, p[ip] % 16, len.value.1 + len.value.0 + 2).Some? {
      var (ll, i) := len.value;
      var (mc, j) := ReadLength(p, p[ip] % 16, i + ll + 2).value;
      ReadLengthPrefix(src, k, src[ip] / 16, ip + 1);
      ReadLengthPrefix(src, k, src[ip] % 16, i + ll + 2);
      SamePieces(src, k, i, i + ll);
      var lit, offset := out + src[i..i + ll], U16(src, i + ll);
      SequenceMeans(src, ip, ll, i, mc, j, out, size);
      SequenceStep(p, ip, ll, i, mc, j, out, size);
      TruncatedFrom(src, k, j, CopyMatch(lit, offset, mc + MIN_MATCH), size);
    } else {
      BrokenSequence(p, ip, out, size);
    }
  }

  /** Cut anywhere, a legal block means nothing or fewer bytes than before. */
  lemma Truncated(block: seq<Byte>, k: nat, size: nat)
    requires k < |block| && Legal(block, size)
    ensures Meaning(block[..k]).Some? ==> |Meaning(block[..k]).value| < size
  {
    TruncatedFrom(block, k, 0, [], size);
  }
}
