/** `LZ4_decompress_unsafe_generic`, and `LZ4_decompress_generic` decoding a full block
    without a dictionary: the safe loop with its two-stage shortcut, and the fast loop. */
module Lz4Decompress {
  import opened Bytes
  import opened MatchCopy
  import opened Lz4Copy
  import opened Lz4Format
  import opened Lz4Accept

  // ------------------------------------------------ where a decoder stands

  /** A decoder standing before a token, with `out` decoded, will still produce `goal`; and it accepts
      the block exactly if it accepts the rest. */
  ghost predicate AtToken(src: seq<Byte>, ip: nat, out: seq<Byte>, goal: Option<seq<Byte>>, taken: bool, size: nat,
                          fast: bool)
  {
    && ip < |src|
    && MeaningFrom(src, ip, out) == goal
    && (taken <==> TakesToken(src, ip, |out|, size, fast))
  }

  ghost predicate AtLiterals(src: seq<Byte>, code: nat, ll: nat, ip: nat, out: seq<Byte>,
                             goal: Option<seq<Byte>>, taken: bool, size: nat)
  {
    && code <= 15 && ip <= |src|
    && MeaningLiterals(src, code, ll, ip, out) == goal
    && (taken <==> TakesLiterals(src, code, ll, ip, |out|, size))
  }

  ghost predicate AtMatch(src: seq<Byte>, offset: nat, code: nat, ip: nat, out: seq<Byte>,
                          goal: Option<seq<Byte>>, taken: bool, size: nat, mode: Mode)
  {
    && code <= 15 && ip <= |src|
    && MeaningMatch(src, offset, code, ip, out) == goal
    && (taken <==> TakesMatch(src, offset, code, ip, |out|, size, mode))
  }

  ghost predicate AtCopy(src: seq<Byte>, offset: nat, ml: nat, ip: nat, out: seq<Byte>,
                         goal: Option<seq<Byte>>, taken: bool, size: nat, fast: bool)
  {
    && ip <= |src|
    && MeaningCopy(src, offset, ml, ip, out) == goal
    && (taken <==> TakesCopy(src, offset, ml, ip, |out|, size, fast))
  }

  // ---------------------------------------------------------------- lengths

  /** `read_variable_length`: the same length as the unchecked reader, or an error exactly when
      that length does not end by `ilimit`. */
  method ReadVariableLength(src: seq<Byte>, start: nat, ilimit: int, initialCheck: bool)
    returns (r: Option<(nat, nat)>)
    requires ilimit < |src| && (initialCheck || start < |src|)
    ensures r.Some? ==> r == ReadLong(src, start) && r.value.1 <= ilimit
    ensures r.None? ==> ReadLong(src, start).None? || ReadLong(src, start).value.1 > ilimit
  {
    if initialCheck && start >= ilimit { return None; }
    var s := src[start];
    var ip := start + 1;
    var length: nat := s;
    if ip > ilimit { return None; }
    if s != 255 { return Some((length, ip)); }
    while true
      invariant start < ip <= ilimit
      invariant ReadLong(src, start) ==
        match ReadLong(src, ip) case None => None case Some((v, next)) => Some((length + v, next))
      decreases ilimit - ip
    {
      s := src[ip];
      ip := ip + 1;
      length := length + s;
      if ip > ilimit { return None; }
      if s != 255 { return Some((length, ip)); }
    }
  }

  // ---------------------------------------------------- the match copy

  /** The end of a match within twelve bytes of the end of the output. */
  method CopyNearEnd(dst: array<Byte>, op: nat, source: nat, cpy: nat, ghost out: seq<Byte>, ghost offset: nat)
    requires source + 8 <= op <= dst.Length && |out| <= cpy <= dst.Length - LAST_LITERALS
    requires Copied(dst[..op], out, offset) && GoodDistance(offset, op - |out|, op - source)
    modifies dst
    ensures Copied(dst[..cpy], out, offset)
  {
    var limit, o, s := dst.Length - 7, op, source;
    if o < limit {
      WildCopy8(dst, o, s, limit, out, offset);
      s := s + (limit - o);
      o := limit;
    }
    CopyBytes(dst, o, s, cpy, out, offset);
    if o > cpy {
      CopiedPrefix(dst[..o], cpy, out, offset);
      assert dst[..cpy] == dst[..o][..cpy];
    }
  }

  /** From `safe_match_copy` on: the copy succeeds exactly when the offset lies in the output
      and the match leaves room for the last literals. */
  method SafeMatchCopy(dst: array<Byte>, op: nat, offset: nat, length: nat) returns (ok: bool)
    requires op + 8 <= dst.Length && length >= MIN_MATCH
    modifies dst
    ensures ok <==> offset <= op && op + length + LAST_LITERALS <= dst.Length
    ensures ok ==> dst[..op + length] == CopyMatch(old(dst[..op]), offset, length)
  {
    hide Copied, CopyMatch, Multiple;
    if offset > op { return false; }
    ghost var out := dst[..op];
    var cpy := op + length;
    var source := FirstEight(dst, op, offset);
    if cpy > dst.Length - 12 {
      if cpy > dst.Length - LAST_LITERALS { return false; }
      CopyNearEnd(dst, op + 8, source, cpy, out, offset);
    } else {
      CopyBlock(dst, op + 8, source, 8, out, offset);
      if length > 16 {
        WildCopy8(dst, op + 16, source + 8, cpy, out, offset);
      } else {
        CopiedPrefix(dst[..op + 16], cpy, out, offset);
        Beginning(dst, cpy, op + 16);
      }
    }
    CopiedIsMatch(dst[..cpy], out, offset);
    ok := true;
  }

  // ------------------------------------------------------- one sequence

  /** Where a decoder goes next: the labels of the source. */
  datatype Next =
    | Token(ip: nat, op: nat)
    | Literals(code: nat, ll: nat, ip: nat, op: nat)
    | Match(offset: nat, code: nat, ip: nat, op: nat)
    | Copy(offset: nat, ml: nat, ip: nat, op: nat)
    | Finished(op: nat)
    | Failed(ip: nat)

  /** `n` is a place from which decoding still leads to `goal`, with the room each label relies on; the
      block is accepted exactly if decoding goes on to its end. */
  ghost predicate Stands(n: Next, mode: Mode, src: seq<Byte>, dst: seq<Byte>, goal: Option<seq<Byte>>, taken: bool)
  {
    match n
    case Token(ip, op) => op <= |dst| && AtToken(src, ip, dst[..op], goal, taken, |dst|, mode == Fast)
    case Literals(code, ll, ip, op) => op <= |dst| && AtLiterals(src, code, ll, ip, dst[..op], goal, taken, |dst|)
    case Match(offset, code, ip, op) =>
      op + 8 <= |dst| && ip < |src| && AtMatch(src, offset, code, ip, dst[..op], goal, taken, |dst|, mode)
    case Copy(offset, ml, ip, op) =>
      && op + 8 <= |dst| && ip < |src| && ml >= MIN_MATCH
      && AtCopy(src, offset, ml, ip, dst[..op], goal, taken, |dst|, mode == Fast)
    case Finished(op) => op <= |dst| && goal == Some(dst[..op]) && taken
    case Failed(_) => !taken
  }

  /** The input a decoder has left never grows. */
  function Position(n: Next): nat
  {
    match n
    case Token(ip, _) => ip
    case Literals(_, _, ip, _) => ip
    case Match(_, _, ip, _) => ip
    case Copy(_, _, ip, _) => ip
    case Finished(_) => 0
    case Failed(ip) => ip
  }

  /** The literal length of the token at `ip`. */
  method LiteralLength(src: seq<Byte>, ip: nat) returns (r: Option<(nat, nat)>)
    requires ip < |src|
    ensures r == LengthBy(src, src[ip] / 16, ip + 1, |src| - 15)
    ensures r.Some? ==> ip < r.value.1 && (src[ip] / 16 != 15 ==> r.value == (src[ip] / 16, ip + 1))
  {
    var length: nat := src[ip] / 16;
    if length != 15 { return Some((length, ip + 1)); }
    r := ReadVariableLength(src, ip + 1, |src| - 15, true);
    if r.Some? { r := Some((15 + r.value.0, r.value.1)); }
  }

  /** The literals of a token are read: what follows them decides who goes on. */
  lemma TokenReads(src: seq<Byte>, ip: nat, op: nat, dst: seq<Byte>, goal: Option<seq<Byte>>, taken: bool, mode: Mode)
    requires Stands(Token(ip, op), mode, src, dst, goal, taken)
    ensures
      var len := LengthBy(src, src[ip] / 16, ip + 1, |src| - 15);
      if len.None? then !taken
      else
        var (ll, i) := len.value;
        var code, long := src[ip] % 16, src[ip] / 16 == 15;
        && MeaningLiterals(src, code, ll, i, dst[..op]) == goal
        && if (if mode == Fast then if long then op + ll + 32 <= |dst| && i + ll + 32 <= |src| else i + 17 <= |src|
               else !long && i + 16 < |src| && op + 32 <= |dst|)
           then i + ll + 2 <= |src| &&
             (taken <==>
                TakesMatch(src, U16(src, i + ll), code, i + ll + 2, op + ll, |dst|,
                           if mode == Fast then Fast else Shortcut))
           else taken <==> TakesLiterals(src, code, ll, i, op, |dst|)
  {
    hide TakesLiterals, TakesMatch, MeaningLiterals;
    if ReadLength(src, src[ip] / 16, ip + 1).Some? { LengthFacts(src, src[ip] / 16, ip + 1); }
  }

  /** Literals behind which a match is read at once. */
  ghost predicate BeforeMatch(code: nat, ll: nat, ip: nat, op: nat, mode: Mode, src: seq<Byte>, dst: seq<Byte>,
                              goal: Option<seq<Byte>>, taken: bool)
  {
    && code <= 15 && ip + ll + 3 <= |src| && op + ll + 8 <= |dst|
    && MeaningLiterals(src, code, ll, ip, dst[..op]) == goal
    && (taken <==> TakesMatch(src, U16(src, ip + ll), code, ip + ll + 2, op + ll, |dst|, mode))
  }

  /** Then, with the literals copied, the match begins. */
  lemma AfterLiterals(code: nat, ll: nat, ip: nat, op: nat, mode: Mode, src: seq<Byte>, before: seq<Byte>,
                      after: seq<Byte>, goal: Option<seq<Byte>>, taken: bool)
    requires BeforeMatch(code, ll, ip, op, mode, src, before, goal, taken) && |after| == |before|
    requires after[..op + ll] == before[..op] + src[ip..ip + ll]
    ensures Stands(Match(U16(src, ip + ll), code, ip + ll + 2, op + ll), mode, src, after, goal, taken)
  {
    hide MeaningMatch, TakesMatch;
  }

  /** From `safe_literal_copy` to the reading of the offset. */
  method SafeLiteralCopy(src: seq<Byte>, dst: array<Byte>, code: nat, ll: nat, ip: nat, op: nat,
                         ghost goal: Option<seq<Byte>>, ghost taken: bool)
    returns (n: Next)
    requires Stands(Literals(code, ll, ip, op), Safe, src, dst[..], goal, taken)
    modifies dst
    ensures Stands(n, Safe, src, dst[..], goal, taken) && (n.Match? || n.Finished? || n.Failed?)
    ensures !n.Finished? ==> ip <= Position(n) <= |src|
  {
    hide TakesMatch, MeaningMatch;
    ghost var before := dst[..];
    assert before[..op] == dst[..op];
    var cpy := op + ll;
    if cpy > dst.Length - MF_LIMIT || ip + ll > |src| - 8 {
      if ip + ll != |src| || cpy > dst.Length { return Failed(ip); }
      CopyIn(dst, op, src, ip, ll);
      assert src[ip..ip + ll] == src[ip..];
      assert dst[..][..cpy] == dst[..cpy];
      return Finished(cpy);
    }
    WildCopyIn(dst, op, src, ip, cpy, 8);
    assert dst[..][..cpy] == dst[..cpy];
    AfterLiterals(code, ll, ip, op, Safe, src, before, dst[..], goal, taken);
    n := Match(U16(src, ip + ll), code, ip + ll + 2, cpy);
  }

  /** A match length that is read leads to the copy. */
  lemma {:induction false} LengthRead(offset: nat, code: nat, ip: nat, op: nat, mode: Mode, src: seq<Byte>,
                                      dst: seq<Byte>, goal: Option<seq<Byte>>, taken: bool)
    requires Stands(Match(offset, code, ip, op), mode, src, dst, goal, taken)
    ensures
      var len := LengthBy(src, code, ip, |src| - 4);
      if len.None? then !taken
      else
        var (mc, i) := len.value;
        && (code != 15 ==> (mc, i) == (code, ip)) && ip <= i && i < |src|
        && MeaningCopy(src, offset, mc + 4, i, dst[..op]) == goal
        && if mode == Shortcut && code != 15 && 8 <= offset <= op
           then taken <==> TakesToken(src, i, op + mc + 4, |dst|, false)
           else Stands(Copy(offset, mc + 4, i, op), if mode == Fast then Fast else Safe, src, dst, goal, taken)
  {
    hide MeaningCopy, TakesCopy, TakesToken;
    if ReadLength(src, code, ip).Some? { LengthFacts(src, code, ip); }
  }

  /** From `_copy_match` to `safe_match_copy`. */
  method MatchLength(src: seq<Byte>, offset: nat, code: nat, ip: nat, op: nat, ghost dst: seq<Byte>, ghost mode: Mode,
                     ghost goal: Option<seq<Byte>>, ghost taken: bool)
    returns (n: Next)
    requires Stands(Match(offset, code, ip, op), mode, src, dst, goal, taken)
    requires mode == Shortcut ==> code == 15 || !(8 <= offset <= op)
    ensures Stands(n, if mode == Fast then Fast else Safe, src, dst, goal, taken) && (n.Copy? || n.Failed?)
    ensures n.Copy? ==> n.op == op && n.offset == offset && (code != 15 ==> n.ml == code + MIN_MATCH)
    ensures ip <= Position(n) <= |src|
  {
    LengthRead(offset, code, ip, op, mode, src, dst, goal, taken);
    hide MeaningCopy, TakesCopy, TakesMatch, MeaningMatch;
    if code != 15 { return Copy(offset, code + MIN_MATCH, ip, op); }
    var r := ReadVariableLength(src, ip, |src| - LAST_LITERALS + 1, false);
    if r.None? { return Failed(ip); }
    n := Copy(offset, 15 + r.value.0 + MIN_MATCH, r.value.1, op);
  }

  /** A match that was copied as the format says leads to the next token. */
  lemma AfterCopy(offset: nat, ml: nat, ip: nat, op: nat, fast: bool, src: seq<Byte>, before: seq<Byte>,
                  after: seq<Byte>, goal: Option<seq<Byte>>, taken: bool)
    requires op <= |before| && ip < |src| && MeaningCopy(src, offset, ml, ip, before[..op]) == goal
    requires taken <==> TakesToken(src, ip, op + ml, |after|, fast)
    requires |before| == |after| && offset <= op && op + ml <= |after|
    requires after[..op + ml] == CopyMatch(before[..op], offset, ml)
    ensures Stands(Token(ip, op + ml), if fast then Fast else Safe, src, after, goal, taken)
  {
    hide TakesToken, MeaningFrom;
  }

  /** From `safe_match_copy` to the next token. */
  method FinishCopy(src: seq<Byte>, dst: array<Byte>, offset: nat, ml: nat, ip: nat, op: nat, ghost mode: Mode,
                    ghost goal: Option<seq<Byte>>, ghost taken: bool)
    returns (n: Next)
    requires Stands(Copy(offset, ml, ip, op), mode, src, dst[..], goal, taken)
    requires mode == Fast ==> op + ml >= dst.Length - 64
    modifies dst
    ensures Stands(n, Safe, src, dst[..], goal, taken) && (n.Token? || n.Failed?) && Position(n) == ip
  {
    hide CopyMatch, TakesToken, MeaningFrom;
    ghost var before := dst[..];
    assert before[..op] == dst[..op];
    var ok := SafeMatchCopy(dst, op, offset, ml);
    if !ok { return Failed(ip); }
    assert dst[..][..op + ml] == dst[..op + ml];
    AfterCopy(offset, ml, ip, op, false, src, before, dst[..], goal, taken);
    n := Token(ip, op + ml);
  }

  /** Eighteen bytes of a match that does not overlap the first eight. */
  method CopyEighteen(dst: array<Byte>, op: nat, offset: nat, length: nat)
    requires 8 <= offset <= op && op + 18 <= dst.Length && length <= 18
    modifies dst
    ensures dst[..op + length] == CopyMatch(old(dst[..op]), offset, length)
  {
    hide Copied, GoodDistance, CopyMatch;
    ghost var out := dst[..op];
    CopiedStart(out, offset);
    CopyBlock(dst, op, op - offset, 8, out, offset);
    CopyBlock(dst, op + 8, op - offset + 8, 8, out, offset);
    CopyBlock(dst, op + 16, op - offset + 16, 2, out, offset);
    CopiedPrefix(dst[..op + 18], op + length, out, offset);
    Beginning(dst, op + length, op + 18);
    CopiedIsMatch(dst[..op + length], out, offset);
  }

  lemma LiteralsBeginning(out: seq<Byte>, src: seq<Byte>, ip: nat, ll: nat, n: nat)
    requires ll <= n && ip + n <= |src|
    ensures (out + src[ip..ip + n])[..|out| + ll] == out + src[ip..ip + ll]
  {
  }

  /** A short run of literals copied as one 16-byte stripe, and the offset behind it. */
  method Stripe(src: seq<Byte>, dst: array<Byte>, code: nat, ll: nat, ip: nat, op: nat, ghost mode: Mode,
                ghost goal: Option<seq<Byte>>, ghost taken: bool)
    returns (n: Next)
    requires BeforeMatch(code, ll, ip, op, mode, src, dst[..], goal, taken)
    requires ll <= 14 && ip + 17 <= |src| && op + 32 <= dst.Length
    modifies dst
    ensures n == Match(U16(src, ip + ll), code, ip + ll + 2, op + ll)
    ensures Stands(n, mode, src, dst[..], goal, taken)
  {
    hide BeforeMatch, MeaningMatch, TakesMatch;
    ghost var before := dst[..];
    CopyIn(dst, op, src, ip, 16);
    Beginning(dst, op + ll, op + 16);
    LiteralsBeginning(before[..op], src, ip, ll, 16);
    n := Match(U16(src, ip + ll), code, ip + ll + 2, op + ll);
    AfterLiterals(code, ll, ip, op, mode, src, before, dst[..], goal, taken);
  }

  /** A longer one, copied 32 bytes at a time. */
  method LongLiterals(src: seq<Byte>, dst: array<Byte>, code: nat, ll: nat, ip: nat, op: nat, ghost mode: Mode,
                      ghost goal: Option<seq<Byte>>, ghost taken: bool)
    returns (n: Next)
    requires BeforeMatch(code, ll, ip, op, mode, src, dst[..], goal, taken)
    requires op + ll + 32 <= dst.Length && ip + ll + 32 <= |src|
    modifies dst
    ensures n == Match(U16(src, ip + ll), code, ip + ll + 2, op + ll)
    ensures Stands(n, mode, src, dst[..], goal, taken)
  {
    hide BeforeMatch, MeaningMatch, TakesMatch;
    ghost var before := dst[..];
    WildCopyIn(dst, op, src, ip, op + ll, 32);
    n := Match(U16(src, ip + ll), code, ip + ll + 2, op + ll);
    AfterLiterals(code, ll, ip, op, mode, src, before, dst[..], goal, taken);
  }

  /** The second stage of a shortcut: a short match, copied at once. */
  method ShortMatch(src: seq<Byte>, dst: array<Byte>, offset: nat, code: nat, ip: nat, op: nat,
                    ghost goal: Option<seq<Byte>>, ghost taken: bool)
    returns (n: Next)
    requires Stands(Match(offset, code, ip, op), Shortcut, src, dst[..], goal, taken)
    requires code != 15 && 8 <= offset <= op && op + 18 <= dst.Length
    modifies dst
    ensures n == Token(ip, op + code + MIN_MATCH) && Stands(n, Safe, src, dst[..], goal, taken)
  {
    hide MeaningMatch, TakesMatch, MeaningCopy, TakesCopy, MeaningFrom, TakesToken, CopyMatch;
    ghost var before := dst[..];
    LengthRead(offset, code, ip, op, Shortcut, src, before, goal, taken);
    assert LengthBy(src, code, ip, |src| - 4) == Some((code, ip));
    assert before[..op] == dst[..op];
    CopyEighteen(dst, op, offset, code + MIN_MATCH);
    assert dst[..][..op + code + MIN_MATCH] == dst[..op + code + MIN_MATCH];
    AfterCopy(offset, code + MIN_MATCH, ip, op, false, src, before, dst[..], goal, taken);
    n := Token(ip, op + code + MIN_MATCH);
  }

  /** One turn of the safe loop. */
  method SafeTurn(src: seq<Byte>, dst: array<Byte>, ip: nat, op: nat,
                  ghost goal: Option<seq<Byte>>, ghost taken: bool)
    returns (n: Next)
    requires Stands(Token(ip, op), Safe, src, dst[..], goal, taken)
    modifies dst
    ensures Stands(n, Safe, src, dst[..], goal, taken) && (n.Token? || n.Finished? || n.Failed?)
    ensures !n.Finished? ==> ip < Position(n) || n.Failed?
  {
    hide MeaningMatch, TakesMatch, MeaningLiterals, TakesLiterals, LengthBy;
    TokenReads(src, ip, op, dst[..], goal, taken, Safe);
    hide MeaningFrom, TakesToken;
    var len := LiteralLength(src, ip);
    if len.None? { return Failed(ip); }
    var (ll, i) := len.value;
    if src[ip] / 16 != 15 && i < |src| - 16 && op <= dst.Length - 32 {
      n := Stripe(src, dst, src[ip] % 16, ll, i, op, Shortcut, goal, taken);
      if n.code != 15 && 8 <= n.offset <= n.op {
        n := ShortMatch(src, dst, n.offset, n.code, n.ip, n.op, goal, taken);
        return;
      }
      n := MatchLength(src, n.offset, n.code, n.ip, n.op, dst[..], Shortcut, goal, taken);
    } else {
      n := SafeLiteralCopy(src, dst, src[ip] % 16, ll, i, op, goal, taken);
      if !n.Match? { return; }
      n := MatchLength(src, n.offset, n.code, n.ip, n.op, dst[..], Safe, goal, taken);
    }
    if n.Copy? { n := FinishCopy(src, dst, n.offset, n.ml, n.ip, n.op, Safe, goal, taken); }
  }

  // --------------------------------------------------------- the fast loop

  /** The literals of one turn of the fast loop; `Literals` is the jump to `safe_literal_copy`. */
  method FastLiterals(src: seq<Byte>, dst: array<Byte>, ip: nat, op: nat,
                      ghost goal: Option<seq<Byte>>, ghost taken: bool)
    returns (n: Next)
    requires Stands(Token(ip, op), Fast, src, dst[..], goal, taken) && op + 64 <= dst.Length
    modifies dst
    ensures Stands(n, Fast, src, dst[..], goal, taken) && (n.Match? || n.Literals? || n.Failed?)
    ensures n.Match? ==> n.op + 32 <= dst.Length && n.offset < 65536
    ensures !n.Failed? ==> ip < Position(n)
  {
    hide MeaningMatch, TakesMatch, MeaningLiterals, TakesLiterals, LengthBy;
    TokenReads(src, ip, op, dst[..], goal, taken, Fast);
    hide MeaningFrom, TakesToken;
    var len := LiteralLength(src, ip);
    if len.None? { return Failed(ip); }
    var (ll, i) := len.value;
    if src[ip] / 16 == 15 {
      if op + ll > dst.Length - 32 || i + ll > |src| - 32 { return Literals(src[ip] % 16, ll, i, op); }
      n := LongLiterals(src, dst, src[ip] % 16, ll, i, op, Fast, goal, taken);
    } else if i <= |src| - 17 {
      n := Stripe(src, dst, src[ip] % 16, ll, i, op, Fast, goal, taken);
    } else {
      n := Literals(src[ip] % 16, ll, i, op);
    }
  }

  /** The match of one turn of the fast loop, with room for every overshoot. */
  method FastCopy(dst: array<Byte>, op: nat, offset: nat, ml: nat, short: bool)
    requires offset <= op && MIN_MATCH <= ml && op + ml + 64 <= dst.Length && (short ==> ml <= 18)
    modifies dst
    ensures dst[..op + ml] == CopyMatch(old(dst[..op]), offset, ml)
  {
    hide Copied, CopyMatch;
    ghost var out := dst[..op];
    if short && offset >= 8 {
      CopyEighteen(dst, op, offset, ml);
    } else {
      if offset < 16 {
        CopyUsingOffset(dst, op, offset, op + ml);
      } else {
        WildCopy32(dst, op, op - offset, op + ml);
      }
      CopiedIsMatch(dst[..op + ml], out, offset);
    }
  }

  method FastFinish(src: seq<Byte>, dst: array<Byte>, offset: nat, ml: nat, ip: nat, op: nat, short: bool,
                    ghost goal: Option<seq<Byte>>, ghost taken: bool)
    returns (n: Next)
    requires Stands(Copy(offset, ml, ip, op), Fast, src, dst[..], goal, taken)
    requires op + ml + 64 < dst.Length && (short ==> ml <= 18)
    modifies dst
    ensures Stands(n, Fast, src, dst[..], goal, taken) && (n == Token(ip, op + ml) || n.Failed?)
  {
    hide CopyMatch, TakesToken, MeaningFrom;
    if offset > op { return Failed(ip); }
    ghost var before := dst[..];
    assert before[..op] == dst[..op];
    FastCopy(dst, op, offset, ml, short);
    assert dst[..][..op + ml] == dst[..op + ml];
    AfterCopy(offset, ml, ip, op, true, src, before, dst[..], goal, taken);
    n := Token(ip, op + ml);
  }

  /** One turn of the fast loop; anything but `Token` leaves it for the safe loop. */
  method FastTurn(src: seq<Byte>, dst: array<Byte>, ip: nat, op: nat,
                  ghost goal: Option<seq<Byte>>, ghost taken: bool)
    returns (n: Next)
    requires Stands(Token(ip, op), Fast, src, dst[..], goal, taken) && op + 64 <= dst.Length
    modifies dst
    ensures Stands(n, Fast, src, dst[..], goal, taken) && (n.Token? || n.Literals? || n.Copy? || n.Failed?)
    ensures n.Token? ==> n.op + 64 <= dst.Length && ip < n.ip
    ensures n.Copy? ==> n.op + n.ml >= dst.Length - 64
  {
    hide AtToken, AtLiterals, MeaningMatch, TakesMatch, AtCopy;
    n := FastLiterals(src, dst, ip, op, goal, taken);
    if !n.Match? { return; }
    var short := n.code != 15;
    n := MatchLength(src, n.offset, n.code, n.ip, n.op, dst[..], Fast, goal, taken);
    if n.Failed? || n.op + n.ml >= dst.Length - 64 { return; }
    n := FastFinish(src, dst, n.offset, n.ml, n.ip, n.op, short, goal, taken);
  }

  /** The fast loop, then the step from wherever it stopped to the safe loop. */
  method FastLoop(src: seq<Byte>, dst: array<Byte>, ghost goal: Option<seq<Byte>>, ghost taken: bool)
    returns (n: Next)
    requires Stands(Token(0, 0), Fast, src, dst[..], goal, taken) && 64 <= dst.Length
    modifies dst
    ensures Stands(n, Safe, src, dst[..], goal, taken) && (n.Token? || n.Finished? || n.Failed?)
  {
    hide TakesToken, MeaningFrom, AtMatch, AtCopy, AtLiterals;
    n := Token(0, 0);
    while n.Token?
      invariant Stands(n, Fast, src, dst[..], goal, taken) && (n.Token? || n.Literals? || n.Copy? || n.Failed?)
      invariant n.Token? ==> n.op + 64 <= dst.Length
      invariant n.Copy? ==> n.op + n.ml >= dst.Length - 64
      decreases n.Token?, if n.Token? then |src| - n.ip else 0
    {
      n := FastTurn(src, dst, n.ip, n.op, goal, taken);
    }
    if n.Literals? {
      n := SafeLiteralCopy(src, dst, n.code, n.ll, n.ip, n.op, goal, taken);
      if n.Match? { n := MatchLength(src, n.offset, n.code, n.ip, n.op, dst[..], Safe, goal, taken); }
      if n.Copy? { n := FinishCopy(src, dst, n.offset, n.ml, n.ip, n.op, Safe, goal, taken); }
    } else if n.Copy? {
      n := FinishCopy(src, dst, n.offset, n.ml, n.ip, n.op, Fast, goal, taken);
    }
  }

  /** `LZ4_decompress_safe`. On any input at all it stays inside both buffers. It accepts exactly the
      blocks `Takes` describes, and what it accepts it decodes to the block's meaning. A legal block
      of exactly the output's size is always accepted, but for one case: into an empty output the
      code takes only the block whose single byte is zero, where the format would let the low bits
      of that byte be anything. */
  method DecompressSafe(src: seq<Byte>, dst: array<Byte>) returns (r: int)
    modifies dst
    ensures r >= 0 <==> Takes(src, dst.Length)
    ensures r >= 0 ==> r <= dst.Length && Meaning(src) == Some(dst[..r])
    ensures Legal(src, dst.Length) ==> r == if dst.Length == 0 && src != [0] then -1 else dst.Length
  {
    hide MeaningFrom, TakesToken, LegalFrom;
    if dst.Length == 0 {
      if |src| == 1 && src[0] == 0 {
        LastStep(src, 0, 0, 1, [], 0);
        assert dst[..0] == [] + src[1..];
        return 0;
      }
      return -1;
    }
    LegalAccepted(src, dst.Length);
    if |src| == 0 { return -1; }
    ghost var goal, taken := Meaning(src), Takes(src, dst.Length);
    var n := Token(0, 0);
    assert dst[..][..0] == [];
    if dst.Length >= 64 { n := FastLoop(src, dst, goal, taken); }
    while n.Token?
      invariant Stands(n, Safe, src, dst[..], goal, taken) && (n.Token? || n.Finished? || n.Failed?)
      decreases n.Token?, if n.Token? then |src| - n.ip else 0
    {
      n := SafeTurn(src, dst, n.ip, n.op, goal, taken);
    }
    if n.Finished? { return n.op; }
    r := -1;
    r := r - n.ip;
  }

  lemma LegalAccepted(src: seq<Byte>, size: nat)
    requires size > 0
    ensures Legal(src, size) ==> Takes(src, size) && Meaning(src).Some? && |Meaning(src).value| == size
  {
    hide TakesToken, MeaningFrom, LegalFrom;
    if Legal(src, size) {
      LegalBegins(src, 0, 0, size);
      LegalTakes(src, 0, 0, size, size >= 64);
      LegalIffSimple(src, 0, [], size);
    }
  }

  // ------------------------------------------------ the byte-by-byte decoder

  /** `read_long_length_no_check`. */
  method ReadLongNoCheck(src: seq<Byte>, start: nat) returns (length: nat, ip: nat)
    requires ReadLong(src, start).Some?
    ensures ReadLong(src, start) == Some((length, ip))
  {
    length, ip := 0, start;
    while true
      invariant start <= ip <= |src| && ReadLong(src, ip).Some?
      invariant ReadLong(src, start) == Some((length + ReadLong(src, ip).value.0, ReadLong(src, ip).value.1))
      decreases |src| - ip
    {
      var b := src[ip];
      ip, length := ip + 1, length + b;
      if b != 255 { return; }
    }
  }

  method LengthNoCheck(src: seq<Byte>, nibble: nat, start: nat) returns (length: nat, ip: nat)
    requires start <= |src| && ReadLength(src, nibble, start).Some?
    ensures ReadLength(src, nibble, start) == Some((length, ip))
  {
    length, ip := nibble, start;
    if nibble == 15 {
      var more;
      more, ip := ReadLongNoCheck(src, start);
      length := length + more;
    }
  }

  /** The literal half: nothing is copied when the literals overrun the output. */
  method UnsafeLiterals(src: seq<Byte>, dst: array<Byte>, ip: nat, op: nat) returns (ll: nat, i: nat)
    requires ip <= |src| && op <= dst.Length && SimpleFrom(src, ip, dst[..op], dst.Length) != Malformed
    modifies dst
    ensures ip < i <= |src|
    ensures
      var was := SimpleFrom(src, ip, old(dst[..op]), dst.Length);
      if ll > dst.Length - op then was == Reject
      else
        && i + ll <= |src|
        && (if dst.Length - (op + ll) >= MF_LIMIT
            then was == SimpleMatch(src, src[ip] % 16, i + ll, dst[..op + ll], dst.Length)
            else was == if op + ll == dst.Length then Done(dst[..], i + ll) else Reject)
  {
    ll, i := LengthNoCheck(src, src[ip] / 16, ip + 1);
    if dst.Length - op >= ll {
      CopyIn(dst, op, src, i, ll);
      assert dst[..dst.Length] == dst[..];
    }
  }

  /** The match half of a sequence of the byte-by-byte decoder; None is its error return. */
  method UnsafeMatch(src: seq<Byte>, dst: array<Byte>, code: nat, start: nat, op: nat) returns (r: Option<(nat, nat)>)
    requires start <= |src| && op <= dst.Length && SimpleMatch(src, code, start, dst[..op], dst.Length) != Malformed
    modifies dst
    ensures r.None? ==> SimpleMatch(src, code, start, old(dst[..op]), dst.Length) == Reject
    ensures r.Some? ==>
      && start < r.value.0 <= |src| && r.value.1 <= dst.Length
      && SimpleMatch(src, code, start, old(dst[..op]), dst.Length)
         == SimpleFrom(src, r.value.0, dst[..r.value.1], dst.Length)
  {
    hide Copied, CopyMatch, SimpleFrom, ReadLength;
    ghost var lit := dst[..op];
    var size := dst.Length;
    var offset := U16(src, start);
    var mc, ip := LengthNoCheck(src, code, start + 2);
    var ml := mc + MIN_MATCH;
    if size - op < ml || offset > op { return None; }
    CopiedStart(lit, offset);
    CopyBytes(dst, op, op - offset, op + ml, lit, offset);
    CopiedIsMatch(dst[..op + ml], lit, offset);
    if size - (op + ml) < LAST_LITERALS { return None; }
    r := Some((ip, op + ml));
  }

  /** `LZ4_decompress_unsafe_generic` without prefix or dictionary computes `SimpleFrom`. Like
      the code, it may only be given inputs that are not malformed. */
  method DecompressUnsafe(src: seq<Byte>, dst: array<Byte>) returns (r: int)
    requires SimpleFrom(src, 0, [], dst.Length) != Malformed
    modifies dst
    ensures
      match SimpleFrom(src, 0, [], dst.Length)
      case Done(out, consumed) => r == consumed && dst[..] == out
      case Reject => r == -1
      case Malformed => true
  {
    hide SimpleMatch, ReadLength;
    ghost var goal := SimpleFrom(src, 0, [], dst.Length);
    var ip: nat, op: nat := 0, 0;
    assert dst[..0] == [];
    while true
      invariant ip <= |src| && op <= dst.Length && SimpleFrom(src, ip, dst[..op], dst.Length) == goal
      decreases |src| - ip
    {
      var code := src[ip] % 16;
      var ll, i := UnsafeLiterals(src, dst, ip, op);
      if ll > dst.Length - op { return -1; }
      if dst.Length - (op + ll) < MF_LIMIT { return if op + ll == dst.Length then i + ll else -1; }
      var next := UnsafeMatch(src, dst, code, i + ll, op + ll);
      if next.None? { return -1; }
      ip, op := next.value.0, next.value.1;
    }
  }
}
