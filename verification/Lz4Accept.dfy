/** Which blocks `LZ4_decompress_generic` accepts, as conditions on lengths alone. The safe loop, its
    shortcut and the fast loop do not test the same things, so it matters which of them reads a
    sequence. */
module Lz4Accept {
  import opened Bytes
  import opened MatchCopy
  import opened Lz4Format

  /** Who reads a match: the fast loop, the shortcut of the safe loop, or the rest of the safe loop. */
  datatype Mode = Fast | Shortcut | Safe

  /** A length that is read entirely before `limit`. */
  ghost function LengthBy(src: seq<Byte>, nibble: nat, i: nat, limit: int): (r: Option<(nat, nat)>)
    requires i <= |src|
    ensures r.Some? ==> i <= r.value.1 <= |src|
  {
    var r := ReadLength(src, nibble, i);
    if nibble == 15 && r.Some? && r.value.1 > limit then None else r
  }

  /** Before the token at `ip`, with `op` bytes decoded. */
  ghost predicate TakesToken(src: seq<Byte>, ip: nat, op: nat, size: nat, fast: bool)
    requires ip <= |src|
    decreases |src| - ip, 0
  {
    && ip < |src|
    && var len := LengthBy(src, src[ip] / 16, ip + 1, |src| - 15);
    && len.Some?
    && var (ll, i) := len.value;
    var code, long := src[ip] % 16, src[ip] / 16 == 15;
    if fast then
      if (if long then op + ll + 32 <= size && i + ll + 32 <= |src| else i + 17 <= |src|) then
        TakesMatch(src, U16(src, i + ll), code, i + ll + 2, op + ll, size, Fast)
      else TakesLiterals(src, code, ll, i, op, size)
    else if !long && i + 16 < |src| && op + 32 <= size then
      TakesMatch(src, U16(src, i + ll), code, i + ll + 2, op + ll, size, Shortcut)
    else TakesLiterals(src, code, ll, i, op, size)
  }

  /** Literals near an end of the input or the output must be the last ones. */
  ghost predicate TakesLiterals(src: seq<Byte>, code: nat, ll: nat, ip: nat, op: nat, size: nat)
    requires ip <= |src|
    decreases |src| - ip, 3
  {
    if op + ll + 12 > size || ip + ll + 8 > |src| then ip + ll == |src| && op + ll <= size
    else TakesMatch(src, U16(src, ip + ll), code, ip + ll + 2, op + ll, size, Safe)
  }

  ghost predicate TakesMatch(src: seq<Byte>, offset: nat, code: nat, ip: nat, op: nat, size: nat, mode: Mode)
    requires ip <= |src|
    decreases |src| - ip, 2
  {
    && var len := LengthBy(src, code, ip, |src| - 4);
    && len.Some?
    && var (mc, i) := len.value;
    if mode == Shortcut && code != 15 && 8 <= offset <= op then TakesToken(src, i, op + mc + 4, size, false)
    else TakesCopy(src, offset, mc + 4, i, op, size, mode == Fast)
  }

  /** A match must leave five bytes; the fast loop looks only if fewer than 64 would be left. */
  ghost predicate TakesCopy(src: seq<Byte>, offset: nat, ml: nat, ip: nat, op: nat, size: nat, fast: bool)
    requires ip <= |src|
    decreases |src| - ip, 1
  {
    && offset <= op
    && if fast && op + ml + 64 < size then TakesToken(src, ip, op + ml, size, true)
       else op + ml + 5 <= size && TakesToken(src, ip, op + ml, size, false)
  }

  /** A whole block. Into an empty output only the block of one zero byte is accepted. */
  ghost predicate Takes(src: seq<Byte>, size: nat)
  {
    if size == 0 then src == [0] else src != [] && TakesToken(src, 0, 0, size, size >= 64)
  }

  // ------------------------------------------------ legal blocks are accepted

  lemma LengthFacts(src: seq<Byte>, nibble: nat, i: nat)
    requires i <= |src| && ReadLength(src, nibble, i).Some?
    ensures
      var (x, j) := ReadLength(src, nibble, i).value;
      if nibble == 15 then x >= 15 else (x, j) == (nibble, i)
  {
  }

  lemma {:induction false} LegalLengths(src: seq<Byte>, ip: nat, op: nat, size: nat)
    requires ip < |src| && LegalFrom(src, ip, op, size)
    ensures
      var len := ReadLength(src, src[ip] / 16, ip + 1);
      && len.Some? && LengthBy(src, src[ip] / 16, ip + 1, |src| - 15) == len
      && var (ll, i) := len.value;
      && (src[ip] / 16 != 15 ==> ll <= 14)
      && if op + ll + 12 > size then i + ll == |src| && op + ll == size
      else
        && i + ll + 2 <= |src|
        && var mlen := ReadLength(src, src[ip] % 16, i + ll + 2);
        && mlen.Some? && LengthBy(src, src[ip] % 16, i + ll + 2, |src| - 4) == mlen
        && var (mc, j) := mlen.value;
        && j + 6 <= |src| && U16(src, i + ll) <= op + ll && op + ll + mc + 4 + 5 <= size
        && LegalFrom(src, j, op + ll + mc + 4, size)
  {
    hide ReadLength;
    var (ll, i) := ReadLength(src, src[ip] / 16, ip + 1).value;
    LengthFacts(src, src[ip] / 16, ip + 1);
    assert LegalLiterals(src, src[ip] % 16, ll, i, op, size);
    if op + ll + 12 <= size {
      var offset := U16(src, i + ll);
      assert LegalMatch(src, offset, src[ip] % 16, i + ll + 2, op + ll, size);
      var (mc, j) := ReadLength(src, src[ip] % 16, i + ll + 2).value;
      assert LegalCopy(src, offset, mc + 4, j, op + ll, size);
      LegalTail(src, j, op + ll + mc + 4, size);
    }
  }

  lemma LegalBegins(src: seq<Byte>, ip: nat, op: nat, size: nat)
    requires ip <= |src| && LegalFrom(src, ip, op, size)
    ensures ip < |src|
  {
    hide ReadLength, LegalLiterals;
  }

  lemma {:induction false} LegalTakes(src: seq<Byte>, ip: nat, op: nat, size: nat, fast: bool)
    requires ip <= |src| && LegalFrom(src, ip, op, size)
    ensures TakesToken(src, ip, op, size, fast)
    decreases |src| - ip
  {
    hide ReadLength, LegalFrom, LengthBy, TakesMatch, TakesCopy, U16;
    LegalBegins(src, ip, op, size);
    LegalLengths(src, ip, op, size);
    var (ll, i) := ReadLength(src, src[ip] / 16, ip + 1).value;
    if op + ll + 12 <= size {
      var (mc, j) := ReadLength(src, src[ip] % 16, i + ll + 2).value;
      LegalTakes(src, j, op + ll + mc + 4, size, true);
      LegalTakes(src, j, op + ll + mc + 4, size, false);
      MatchTaken(src, U16(src, i + ll), src[ip] % 16, i + ll + 2, op + ll, size, Fast);
      MatchTaken(src, U16(src, i + ll), src[ip] % 16, i + ll + 2, op + ll, size, Shortcut);
      MatchTaken(src, U16(src, i + ll), src[ip] % 16, i + ll + 2, op + ll, size, Safe);
    }
    assert TakesLiterals(src, src[ip] % 16, ll, i, op, size);
  }

  /** A match that leaves room is accepted by whoever reads it, if what follows is. */
  lemma MatchTaken(src: seq<Byte>, offset: nat, code: nat, ip: nat, op: nat, size: nat, mode: Mode)
    requires ip <= |src| && offset <= op && LengthBy(src, code, ip, |src| - 4).Some?
    requires
      var (mc, i) := LengthBy(src, code, ip, |src| - 4).value;
      && op + mc + 4 + 5 <= size
      && TakesToken(src, i, op + mc + 4, size, true) && TakesToken(src, i, op + mc + 4, size, false)
    ensures TakesMatch(src, offset, code, ip, op, size, mode)
  {
    hide LengthBy, TakesToken;
    var (mc, i) := LengthBy(src, code, ip, |src| - 4).value;
    assert TakesCopy(src, offset, mc + 4, i, op, size, mode == Fast);
  }
}
