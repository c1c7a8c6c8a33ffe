/** The LZ4 block format: what a block means, and the parsing restrictions it must obey.

    Three readings of a block are defined, each over every byte sequence:
    `MeaningFrom` gives the bytes a block stands for, `LegalFrom` is the format's
    parsing restrictions on lengths alone, and `SimpleFrom` is the byte-by-byte decoder
    `LZ4_decompress_unsafe_generic`. */
module Lz4Format {
  import opened Bytes
  import opened MatchCopy

  const MIN_MATCH := 4
  const LAST_LITERALS := 5
  const MF_LIMIT := 12
  const MAX_INPUT_SIZE := 0x7E00_0000

  function CompressBound(n: nat): nat
  {
    if n > MAX_INPUT_SIZE then 0 else n + n / 255 + 16
  }

  // ---------------------------------------------------------------- lengths

  /** A run of 255s closed by a smaller byte; the result is the sum and the next index. */
  function ReadLong(src: seq<Byte>, i: nat): (r: Option<(nat, nat)>)
    ensures r.Some? ==> i < r.value.1 <= |src|
    ensures r.Some? ==> r.value.0 <= 255 * (r.value.1 - i)
    decreases |src| - i
  {
    if i >= |src| then None
    else if src[i] < 255 then Some((src[i], i + 1))
    else match ReadLong(src, i + 1)
      case None => None
      case Some((v, next)) => Some((255 + v, next))
  }

  /** A length whose first four bits come from the token. */
  function ReadLength(src: seq<Byte>, nibble: nat, i: nat): (r: Option<(nat, nat)>)
    requires i <= |src|
    ensures r.Some? ==> i <= r.value.1 <= |src|
    ensures r.Some? && nibble <= 15 ==> r.value.0 <= 15 + 255 * (r.value.1 - i)
  {
    if nibble != 15 then Some((nibble, i))
    else match ReadLong(src, i)
      case None => None
      case Some((v, next)) => Some((15 + v, next))
  }

  function U16(src: seq<Byte>, i: nat): nat
    requires i + 2 <= |src|
  {
    src[i] as int + 256 * src[i + 1] as int
  }

  // ---------------------------------------------------------------- meaning

  /** The bytes a block stands for, or None when it is not a block at all.
      A block ends where a run of literals ends the input. */
  function Meaning(src: seq<Byte>): Option<seq<Byte>>
  {
    MeaningFrom(src, 0, [])
  }

  function MeaningFrom(src: seq<Byte>, ip: nat, out: seq<Byte>): Option<seq<Byte>>
    requires ip <= |src|
    decreases |src| - ip, 0
  {
    if ip == |src| then None
    else match ReadLength(src, src[ip] / 16, ip + 1)
      case None => None
      case Some((ll, i)) => MeaningLiterals(src, src[ip] % 16, ll, i, out)
  }

  function MeaningLiterals(src: seq<Byte>, code: nat, ll: nat, ip: nat, out: seq<Byte>): Option<seq<Byte>>
    requires ip <= |src|
    decreases |src| - ip, 3
  {
    if ip + ll == |src| then Some(out + src[ip..])
    else if ip + ll + 2 > |src| then None
    else MeaningMatch(src, U16(src, ip + ll), code, ip + ll + 2, out + src[ip..ip + ll])
  }

  function MeaningMatch(src: seq<Byte>, offset: nat, code: nat, ip: nat, out: seq<Byte>): Option<seq<Byte>>
    requires ip <= |src|
    decreases |src| - ip, 2
  {
    match ReadLength(src, code, ip)
    case None => None
    case Some((mc, i)) => MeaningCopy(src, offset, mc + MIN_MATCH, i, out)
  }

  function MeaningCopy(src: seq<Byte>, offset: nat, ml: nat, ip: nat, out: seq<Byte>): Option<seq<Byte>>
    requires ip <= |src|
    decreases |src| - ip, 1
  {
    if offset > |out| then None
    else MeaningFrom(src, ip, CopyMatch(out, offset, ml))
  }

  // ------------------------------------------------- parsing restrictions

  /** `src` is a block of exactly `size` output bytes that obeys the parsing restrictions:
      offsets are non-zero and inside the output, the last match starts MF_LIMIT bytes and
      ends LAST_LITERALS bytes before the end, and the block ends in literals. */
  ghost predicate Legal(src: seq<Byte>, size: nat)
  {
    LegalFrom(src, 0, 0, size)
  }

  ghost predicate LegalFrom(src: seq<Byte>, ip: nat, op: nat, size: nat)
    requires ip <= |src|
    decreases |src| - ip, 0
  {
    && ip < |src|
    && ReadLength(src, src[ip] / 16, ip + 1).Some?
    && var (ll, i) := ReadLength(src, src[ip] / 16, ip + 1).value;
    LegalLiterals(src, src[ip] % 16, ll, i, op, size)
  }

  ghost predicate LegalLiterals(src: seq<Byte>, code: nat, ll: nat, ip: nat, op: nat, size: nat)
    requires ip <= |src|
    decreases |src| - ip, 3
  {
    if op + ll + MF_LIMIT > size
    then op + ll == size && ip + ll == |src|
    else ip + ll + 2 <= |src| && LegalMatch(src, U16(src, ip + ll), code, ip + ll + 2, op + ll, size)
  }

  ghost predicate LegalMatch(src: seq<Byte>, offset: nat, code: nat, ip: nat, op: nat, size: nat)
    requires ip <= |src|
    decreases |src| - ip, 2
  {
    && ReadLength(src, code, ip).Some?
    && var (mc, i) := ReadLength(src, code, ip).value;
    LegalCopy(src, offset, mc + MIN_MATCH, i, op, size)
  }

  ghost predicate LegalCopy(src: seq<Byte>, offset: nat, ml: nat, ip: nat, op: nat, size: nat)
    requires ip <= |src|
    decreases |src| - ip, 1
  {
    && 1 <= offset <= op
    && op + ml + LAST_LITERALS <= size
    && LegalFrom(src, ip, op + ml, size)
  }

  // --------------------------------------------- the byte-by-byte decoder

  /** How `LZ4_decompress_unsafe_generic` ends: the bytes and the input consumed, its error
      return, or a malformed input it is documented to have no defence against. */
  datatype Simple = Done(out: seq<Byte>, consumed: nat) | Reject | Malformed

  function SimpleFrom(src: seq<Byte>, ip: nat, out: seq<Byte>, size: nat): Simple
    requires ip <= |src| && |out| <= size
    decreases |src| - ip, 0
  {
    if ip == |src| then Malformed
    else match ReadLength(src, src[ip] / 16, ip + 1)
      case None => Malformed
      case Some((ll, i)) =>
        if |out| + ll > size then Reject
        else if i + ll > |src| then Malformed
        else if |out| + ll + MF_LIMIT <= size then
          SimpleMatch(src, src[ip] % 16, i + ll, out + src[i..i + ll], size)
        else if |out| + ll == size then Done(out + src[i..i + ll], i + ll)
        else Reject
  }

  function SimpleMatch(src: seq<Byte>, code: nat, ip: nat, out: seq<Byte>, size: nat): Simple
    requires ip <= |src| && |out| <= size
    decreases |src| - ip, 1
  {
    if ip + 2 > |src| then Malformed
    else match ReadLength(src, code, ip + 2)
      case None => Malformed
      case Some((mc, j)) =>
        var offset := U16(src, ip);
        if |out| + mc + MIN_MATCH > size || offset > |out| then Reject
        else if offset == 0 then Malformed
        else if |out| + mc + MIN_MATCH + LAST_LITERALS > size then Reject
        else SimpleFrom(src, j, CopyMatch(out, offset, mc + MIN_MATCH), size)
  }

  /** What one sequence that carries a match does, in all readings at once. */
  lemma {:induction false} SequenceStep(src: seq<Byte>, ip: nat, ll: nat, i: nat, mc: nat, j: nat, out: seq<Byte>,
                                        size: nat)
    requires ip < |src| && ReadLength(src, src[ip] / 16, ip + 1) == Some((ll, i))
    requires i + ll + 2 <= |src| && ReadLength(src, src[ip] % 16, i + ll + 2) == Some((mc, j))
    ensures
      var lit := out + src[i..i + ll];
      var offset := U16(src, i + ll);
      && MeaningFrom(src, ip, out) == MeaningCopy(src, offset, mc + MIN_MATCH, j, lit)
      && (LegalFrom(src, ip, |out|, size) <==>
            |lit| + MF_LIMIT <= size && LegalCopy(src, offset, mc + MIN_MATCH, j, |lit|, size))
  {
    var lit := out + src[i..i + ll];
    var offset := U16(src, i + ll);
    assert MeaningFrom(src, ip, out) == MeaningLiterals(src, src[ip] % 16, ll, i, out);
    assert MeaningLiterals(src, src[ip] % 16, ll, i, out) == MeaningMatch(src, offset, src[ip] % 16, i + ll + 2, lit);
    assert LegalFrom(src, ip, |out|, size) == LegalLiterals(src, src[ip] % 16, ll, i, |out|, size);
  }

  /** What the closing run of literals does. */
  lemma {:induction false} LastStep(src: seq<Byte>, ip: nat, ll: nat, i: nat, out: seq<Byte>, size: nat)
    requires ip < |src| && ReadLength(src, src[ip] / 16, ip + 1) == Some((ll, i)) && i + ll == |src|
    ensures MeaningFrom(src, ip, out) == Some(out + src[i..])
    ensures LegalFrom(src, ip, |out|, size) <==> |out| + ll == size
  {
    assert MeaningFrom(src, ip, out) == MeaningLiterals(src, src[ip] % 16, ll, i, out);
    assert LegalFrom(src, ip, |out|, size) == LegalLiterals(src, src[ip] % 16, ll, i, |out|, size);
  }

  /** Behind literals that do not end the input there is a match, or the block is broken off. */
  lemma {:induction false} BrokenLiterals(src: seq<Byte>, code: nat, ll: nat, ip: nat, out: seq<Byte>, size: nat)
    requires ip <= |src| && ip + ll != |src|
    requires ip + ll + 2 <= |src| ==> ReadLength(src, code, ip + ll + 2).None?
    ensures MeaningLiterals(src, code, ll, ip, out).None? && !LegalLiterals(src, code, ll, ip, |out|, size)
  {
    hide ReadLength;
  }

  /** A sequence carries a match unless its literals end the input; a block broken off inside
      a sequence has no meaning and is not legal. */
  lemma {:induction false} BrokenSequence(src: seq<Byte>, ip: nat, out: seq<Byte>, size: nat)
    requires ip <= |src|
    requires
      ip < |src| && ReadLength(src, src[ip] / 16, ip + 1).Some? ==>
        var (ll, i) := ReadLength(src, src[ip] / 16, ip + 1).value;
        i + ll != |src| && (i + ll + 2 <= |src| ==> ReadLength(src, src[ip] % 16, i + ll + 2).None?)
    ensures MeaningFrom(src, ip, out).None? && !LegalFrom(src, ip, |out|, size)
  {
    hide ReadLength, MeaningLiterals, LegalLiterals;
    if ip < |src| && ReadLength(src, src[ip] / 16, ip + 1).Some? {
      var (ll, i) := ReadLength(src, src[ip] / 16, ip + 1).value;
      BrokenLiterals(src, src[ip] % 16, ll, i, out, size);
    }
  }

  /** The restrictions one sequence with a match is held to. */
  ghost predicate SequenceFits(lit: nat, offset: nat, mc: nat, size: nat)
  {
    1 <= offset <= lit && lit + MF_LIMIT <= size && lit + mc + MIN_MATCH + LAST_LITERALS <= size
  }

  /** A sequence that fits leads on; one that does not makes the block illegal. */
  lemma {:induction false} SequenceMeans(src: seq<Byte>, ip: nat, ll: nat, i: nat, mc: nat, j: nat, out: seq<Byte>,
                                         size: nat)
    requires ip < |src| && ReadLength(src, src[ip] / 16, ip + 1) == Some((ll, i))
    requires i + ll + 2 <= |src| && ReadLength(src, src[ip] % 16, i + ll + 2) == Some((mc, j))
    ensures
      var lit, offset := out + src[i..i + ll], U16(src, i + ll);
      if SequenceFits(|lit|, offset, mc, size)
      then
        var more := CopyMatch(lit, offset, mc + MIN_MATCH);
        && MeaningFrom(src, ip, out) == MeaningFrom(src, j, more)
        && (LegalFrom(src, ip, |out|, size) <==> LegalFrom(src, j, |more|, size))
      else !LegalFrom(src, ip, |out|, size)
  {
    hide ReadLength, MeaningFrom, LegalFrom, CopyMatch, U16;
    SequenceStep(src, ip, ll, i, mc, j, out, size);
  }

  /** How the three readings of one block relate. */
  ghost predicate Agree(s: Simple, legal: bool, meaning: Option<seq<Byte>>, size: nat, end: nat)
  {
    && (legal <==> s.Done? && s.consumed == end)
    && (s.Done? ==> |s.out| == size)
    && (s.Done? && s.consumed == end ==> meaning == Some(s.out))
  }

  /** The byte-by-byte decoder decodes and consumes the whole input exactly on the legal
      blocks, and then its output is the block's meaning. */
  ghost predicate SimpleAgrees(src: seq<Byte>, ip: nat, out: seq<Byte>, size: nat)
    requires ip <= |src| && |out| <= size
  {
    Agree(SimpleFrom(src, ip, out, size), LegalFrom(src, ip, |out|, size), MeaningFrom(src, ip, out), size, |src|)
  }

  lemma {:induction false} SimpleMatchStep(src: seq<Byte>, code: nat, ip: nat, mc: nat, j: nat, out: seq<Byte>,
                                           size: nat)
    requires ip + 2 <= |src| && ReadLength(src, code, ip + 2) == Some((mc, j)) && |out| + MF_LIMIT <= size
    ensures
      var s := SimpleMatch(src, code, ip, out, size);
      var offset := U16(src, ip);
      if SequenceFits(|out|, offset, mc, size)
      then s == SimpleFrom(src, j, CopyMatch(out, offset, mc + MIN_MATCH), size)
      else !s.Done?
  {
  }

  lemma {:induction false} SimpleStep(src: seq<Byte>, ip: nat, ll: nat, i: nat, mc: nat, j: nat, out: seq<Byte>,
                                      size: nat)
    requires ip < |src| && ReadLength(src, src[ip] / 16, ip + 1) == Some((ll, i))
    requires i + ll + 2 <= |src| && ReadLength(src, src[ip] % 16, i + ll + 2) == Some((mc, j))
    requires |out| <= size
    ensures
      var s := SimpleFrom(src, ip, out, size);
      var lit, offset := out + src[i..i + ll], U16(src, i + ll);
      if SequenceFits(|lit|, offset, mc, size)
      then s == SimpleFrom(src, j, CopyMatch(lit, offset, mc + MIN_MATCH), size)
      else s.Done? ==> |s.out| == size && s.consumed < |src|
  {
    if |out| + ll + MF_LIMIT <= size {
      SimpleMatchStep(src, src[ip] % 16, i + ll, mc, j, out + src[i..i + ll], size);
      assert SimpleFrom(src, ip, out, size) == SimpleMatch(src, src[ip] % 16, i + ll, out + src[i..i + ll], size);
    }
  }

  lemma {:induction false} SimpleAgreesMatch(src: seq<Byte>, ip: nat, ll: nat, i: nat, mc: nat, j: nat,
                                             out: seq<Byte>, size: nat)
    requires ip < |src| && ReadLength(src, src[ip] / 16, ip + 1) == Some((ll, i))
    requires i + ll + 2 <= |src| && ReadLength(src, src[ip] % 16, i + ll + 2) == Some((mc, j))
    requires |out| <= size
    requires
      var lit, offset := out + src[i..i + ll], U16(src, i + ll);
      SequenceFits(|lit|, offset, mc, size) ==> SimpleAgrees(src, j, CopyMatch(lit, offset, mc + MIN_MATCH), size)
    ensures SimpleAgrees(src, ip, out, size)
  {
    SequenceMeans(src, ip, ll, i, mc, j, out, size);
    SimpleStep(src, ip, ll, i, mc, j, out, size);
  }

  lemma {:induction false} SimpleAgreesEnd(src: seq<Byte>, ip: nat, out: seq<Byte>, size: nat)
    requires ip <= |src| && |out| <= size
    requires
      ip < |src| && ReadLength(src, src[ip] / 16, ip + 1).Some? ==>
        var (ll, i) := ReadLength(src, src[ip] / 16, ip + 1).value;
        i + ll + 2 <= |src| ==> ReadLength(src, src[ip] % 16, i + ll + 2).None?
    ensures SimpleAgrees(src, ip, out, size)
  {
    if ip < |src| && ReadLength(src, src[ip] / 16, ip + 1).Some? {
      var (ll, i) := ReadLength(src, src[ip] / 16, ip + 1).value;
      if i + ll == |src| {
        LastStep(src, ip, ll, i, out, size);
        assert src[i..i + ll] == src[i..];
      } else {
        BrokenSequence(src, ip, out, size);
      }
    } else {
      BrokenSequence(src, ip, out, size);
    }
  }

  lemma {:induction false} LegalIffSimple(src: seq<Byte>, ip: nat, out: seq<Byte>, size: nat)
    requires ip <= |src| && |out| <= size
    ensures SimpleAgrees(src, ip, out, size)
    decreases |src| - ip
  {
    var len := if ip < |src| then ReadLength(src, src[ip] / 16, ip + 1) else None;
    if len.Some? && len.value.1 + len.value.0 + 2 <= |src|
      && ReadLength(src, src[ip] % 16, len.value.1 + len.value.0 + 2).Some? {
      var (ll, i) := len.value;
      var (mc, j) := ReadLength(src, src[ip] % 16, i + ll + 2).value;
      var lit := out + src[i..i + ll];
      var offset := U16(src, i + ll);
      if SequenceFits(|lit|, offset, mc, size) {
        LegalIffSimple(src, j, CopyMatch(lit, offset, mc + MIN_MATCH), size);
      }
      SimpleAgreesMatch(src, ip, ll, i, mc, j, out, size);
    } else {
      SimpleAgreesEnd(src, ip, out, size);
    }
  }

  /** Every block expands at most 255 times. */
  lemma {:induction false} ExpansionRatio(src: seq<Byte>, ip: nat, out: seq<Byte>)
    requires ip <= |src|
    ensures
      var m := MeaningFrom(src, ip, out);
      m.Some? ==> |m.value| <= |out| + 255 * (|src| - ip)
    decreases |src| - ip
  {
    var len := if ip < |src| then ReadLength(src, src[ip] / 16, ip + 1) else None;
    if len.None? {
      BrokenSequence(src, ip, out, 0);
    } else {
      var (ll, i) := len.value;
      var mlen := if i + ll + 2 <= |src| then ReadLength(src, src[ip] % 16, i + ll + 2) else None;
      if i + ll == |src| {
        LastStep(src, ip, ll, i, out, 0);
      } else if mlen.None? {
        BrokenSequence(src, ip, out, 0);
      } else {
        var (mc, j) := mlen.value;
        SequenceStep(src, ip, ll, i, mc, j, out, 0);
        var lit := out + src[i..i + ll];
        var offset := U16(src, i + ll);
        if offset <= |lit| {
          ExpansionRatio(src, j, CopyMatch(lit, offset, mc + MIN_MATCH));
        }
      }
    }
  }

  /** In a legal block, wherever a match has just ended at least a token and the last
      literals are still to be read. */
  lemma {:induction false} LegalTail(src: seq<Byte>, ip: nat, op: nat, size: nat)
    requires ip <= |src| && LegalFrom(src, ip, op, size) && op + LAST_LITERALS <= size
    ensures ip + 1 + LAST_LITERALS <= |src|
    decreases |src| - ip
  {
    var (ll, i) := ReadLength(src, src[ip] / 16, ip + 1).value;
    assert LegalLiterals(src, src[ip] % 16, ll, i, op, size);
    if op + ll + MF_LIMIT <= size {
      assert LegalMatch(src, U16(src, i + ll), src[ip] % 16, i + ll + 2, op + ll, size);
      var (mc, j) := ReadLength(src, src[ip] % 16, i + ll + 2).value;
      assert LegalCopy(src, U16(src, i + ll), mc + MIN_MATCH, j, op + ll, size);
      LegalTail(src, j, op + ll + mc + MIN_MATCH, size);
    }
  }

  // --------------------------------------------------------------- encoding

  function LongBytes(x: nat): (r: seq<Byte>)
    ensures |r| == x / 255 + 1
  {
    if x < 255 then [x] else [255] + LongBytes(x - 255)
  }

  function Nibble(x: nat): (r: nat)
    ensures r <= 15
  {
    if x < 15 then x else 15
  }

  function ExtraBytes(x: nat): seq<Byte>
  {
    if x < 15 then [] else LongBytes(x - 15)
  }

  /** One sequence: token, literal length, literals, offset, match length. */
  function EncodeSequence(lits: seq<Byte>, offset: nat, mc: nat): seq<Byte>
    requires offset < 65536
  {
    [16 * Nibble(|lits|) + Nibble(mc)] + ExtraBytes(|lits|) + lits
    + [offset % 256, offset / 256] + ExtraBytes(mc)
  }

  function EncodeLast(lits: seq<Byte>): seq<Byte>
  {
    [16 * Nibble(|lits|)] + ExtraBytes(|lits|) + lits
  }

  /** Reading inverts writing, wherever the bytes stand. */
  lemma {:induction false} ReadLongAt(src: seq<Byte>, i: nat, x: nat)
    requires i + |LongBytes(x)| <= |src| && src[i..i + |LongBytes(x)|] == LongBytes(x)
    ensures ReadLong(src, i) == Some((x, i + |LongBytes(x)|))
    decreases x
  {
    var s := src[i..i + |LongBytes(x)|];
    assert s[0] == src[i];
    if x >= 255 {
      assert s[1..] == LongBytes(x - 255) && s[1..] == src[i + 1..i + 1 + |LongBytes(x - 255)|];
      ReadLongAt(src, i + 1, x - 255);
    }
  }

  lemma {:induction false} ReadLengthAt(src: seq<Byte>, i: nat, x: nat)
    requires i + |ExtraBytes(x)| <= |src| && src[i..i + |ExtraBytes(x)|] == ExtraBytes(x)
    ensures ReadLength(src, Nibble(x), i) == Some((x, i + |ExtraBytes(x)|))
  {
    if x >= 15 { ReadLongAt(src, i, x - 15); }
  }
}
