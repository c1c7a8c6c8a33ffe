/** `LZ4_compress_fast` with acceleration 1: one block, no dictionary, either table type,
    with and without output limit. The hash is an arbitrary function. */
module Lz4Compress {
  import opened Bytes
  import opened MatchCopy
  import opened Lz4Copy
  import opened Lz4Format
  import opened Lz4Reference

  const DISTANCE_MAX := 65535
  const LIMIT_64K := 65536 + MF_LIMIT - 1

  // --------------------------------------------- blocks under construction

  /** Whatever follows, decoding `block` first yields `done`; and it stays legal. */
  ghost predicate Encodes(block: seq<Byte>, done: seq<Byte>, n: nat)
  {
    forall rest: seq<Byte> :: EncodesBefore(block, done, n, rest)
  }

  ghost predicate EncodesBefore(block: seq<Byte>, done: seq<Byte>, n: nat, rest: seq<Byte>)
  {
    && MeaningFrom(block + rest, 0, []) == MeaningFrom(block + rest, |block|, done)
    && (LegalFrom(block + rest, |block|, |done|, n) ==> LegalFrom(block + rest, 0, 0, n))
  }

  /** An encoded sequence is read back: its lengths, its literals and its offset. */
  ghost predicate ReadsBack(src: seq<Byte>, ip: nat, lits: seq<Byte>, offset: nat, mc: nat, j: nat)
  {
    && ip < |src|
    && var len := ReadLength(src, src[ip] / 16, ip + 1);
    && len.Some? && len.value.0 == |lits|
    && var i := len.value.1;
    && i + |lits| + 2 <= |src|
    && src[i..i + |lits|] == lits && U16(src, i + |lits|) == offset
    && ReadLength(src, src[ip] % 16, i + |lits| + 2) == Some((mc, j))
  }

  /** A sequence in three pieces: its run of literals, its offset, the rest of its length. */
  lemma SequenceParts(lits: seq<Byte>, offset: nat, mc: nat)
    requires offset < 65536
    ensures
      var s := EncodeSequence(lits, offset, mc);
      var i := 1 + |ExtraBytes(|lits|)|;
      var j := i + |lits|;
      && |s| == j + 2 + |ExtraBytes(mc)|
      && s[0] == 16 * Nibble(|lits|) + Nibble(mc)
      && s[1..i] == ExtraBytes(|lits|) && s[i..j] == lits
      && s[j] == offset % 256 && s[j + 1] == offset / 256 && s[j + 2..] == ExtraBytes(mc)
  {
    var x, o, y := ExtraBytes(|lits|), [offset % 256, offset / 256], ExtraBytes(mc);
    Pieces(16 * Nibble(|lits|) + Nibble(mc), x, lits, o, y);
  }

  lemma Pieces(t: Byte, x: seq<Byte>, l: seq<Byte>, o: seq<Byte>, y: seq<Byte>)
    requires |o| == 2
    ensures
      var s := [t] + x + l + o + y;
      var i, j := 1 + |x|, 1 + |x| + |l|;
      && |s| == j + 2 + |y| && s[0] == t && s[1..i] == x && s[i..j] == l
      && s[j] == o[0] && s[j + 1] == o[1] && s[j + 2..] == y
  {
  }

  lemma TokenNibbles(high: nat, low: nat)
    requires low <= 15
    ensures (16 * high + low) / 16 == high && (16 * high + low) % 16 == low
  {
  }

  lemma {:induction false} ReadPieces(src: seq<Byte>, ip: nat, lits: seq<Byte>, offset: nat, mc: nat)
    requires offset < 65536
    requires
      var i := ip + 1 + |ExtraBytes(|lits|)|;
      var j := i + |lits|;
      && j + 2 + |ExtraBytes(mc)| <= |src|
      && src[ip] == 16 * Nibble(|lits|) + Nibble(mc)
      && src[ip + 1..i] == ExtraBytes(|lits|) && src[i..j] == lits
      && src[j] == offset % 256 && src[j + 1] == offset / 256
      && src[j + 2..j + 2 + |ExtraBytes(mc)|] == ExtraBytes(mc)
    ensures ReadsBack(src, ip, lits, offset, mc, ip + 1 + |ExtraBytes(|lits|)| + |lits| + 2 + |ExtraBytes(mc)|)
  {
    hide ExtraBytes, Nibble, ReadLength;
    var i := ip + 1 + |ExtraBytes(|lits|)|;
    TokenNibbles(Nibble(|lits|), Nibble(mc));
    ReadLengthAt(src, ip + 1, |lits|);
    ReadLengthAt(src, i + |lits| + 2, mc);
  }

  /** Reading back an encoded sequence, wherever it stands. */
  lemma {:induction false} ReadSequence(src: seq<Byte>, ip: nat, lits: seq<Byte>, offset: nat, mc: nat)
    requires offset < 65536
    requires var s := EncodeSequence(lits, offset, mc); ip + |s| <= |src| && src[ip..ip + |s|] == s
    ensures ReadsBack(src, ip, lits, offset, mc, ip + |EncodeSequence(lits, offset, mc)|)
  {
    hide EncodeSequence, ExtraBytes, Nibble, ReadsBack;
    var s := EncodeSequence(lits, offset, mc);
    SequenceParts(lits, offset, mc);
    var i := 1 + |ExtraBytes(|lits|)|;
    var j := i + |lits|;
    assert src[ip..ip + |s|][0] == src[ip];
    assert src[ip..ip + |s|][j] == src[ip + j] && src[ip..ip + |s|][j + 1] == src[ip + j + 1];
    Part(src, ip, s, 1, i);
    Part(src, ip, s, i, j);
    Part(src, ip, s, j + 2, |s|);
    ReadPieces(src, ip, lits, offset, mc);
  }

  lemma {:induction false} ReadsBackMeans(src: seq<Byte>, ip: nat, done: seq<Byte>, n: nat, lits: seq<Byte>,
                                          offset: nat, mc: nat, j: nat)
    requires ReadsBack(src, ip, lits, offset, mc, j) && SequenceFits(|done| + |lits|, offset, mc, n)
    ensures
      var more := CopyMatch(done + lits, offset, mc + MIN_MATCH);
      && MeaningFrom(src, ip, done) == MeaningFrom(src, j, more)
      && (LegalFrom(src, j, |more|, n) ==> LegalFrom(src, ip, |done|, n))
  {
    var i := ReadLength(src, src[ip] / 16, ip + 1).value.1;
    SequenceMeans(src, ip, |lits|, i, mc, j, done, n);
  }

  lemma {:induction false} EncodesChain(block: seq<Byte>, e: seq<Byte>, rest: seq<Byte>, done: seq<Byte>,
                                        more: seq<Byte>, n: nat)
    requires EncodesBefore(block, done, n, e + rest)
    requires
      var src := block + (e + rest);
      && MeaningFrom(src, |block|, done) == MeaningFrom(src, |block| + |e|, more)
      && (LegalFrom(src, |block| + |e|, |more|, n) ==> LegalFrom(src, |block|, |done|, n))
    ensures EncodesBefore(block + e, more, n, rest)
  {
    assert block + (e + rest) == block + e + rest;
  }

  lemma {:induction false} EncodesSequenceBefore(block: seq<Byte>, done: seq<Byte>, n: nat, lits: seq<Byte>,
                                                 offset: nat, mc: nat, rest: seq<Byte>)
    requires Encodes(block, done, n)
    requires 1 <= offset <= DISTANCE_MAX && offset <= |done| + |lits|
    requires |done| + |lits| + MF_LIMIT <= n && |done| + |lits| + mc + MIN_MATCH + LAST_LITERALS <= n
    ensures
      var more := CopyMatch(done + lits, offset, mc + MIN_MATCH);
      EncodesBefore(block + EncodeSequence(lits, offset, mc), more, n, rest)
  {
    var seqn := EncodeSequence(lits, offset, mc);
    assert (block + (seqn + rest))[|block|..|block| + |seqn|] == seqn;
    ReadSequence(block + (seqn + rest), |block|, lits, offset, mc);
    ReadsBackMeans(block + (seqn + rest), |block|, done, n, lits, offset, mc, |block| + |seqn|);
    assert EncodesBefore(block, done, n, seqn + rest);
    EncodesChain(block, seqn, rest, done, CopyMatch(done + lits, offset, mc + MIN_MATCH), n);
  }

  /** Appending a sequence extends what the block encodes by its literals and its match. */
  lemma {:induction false} EncodesSequence(block: seq<Byte>, done: seq<Byte>, n: nat, lits: seq<Byte>, offset: nat,
                                           mc: nat)
    requires Encodes(block, done, n)
    requires 1 <= offset <= DISTANCE_MAX && offset <= |done| + |lits|
    requires |done| + |lits| + MF_LIMIT <= n && |done| + |lits| + mc + MIN_MATCH + LAST_LITERALS <= n
    ensures Encodes(block + EncodeSequence(lits, offset, mc), CopyMatch(done + lits, offset, mc + MIN_MATCH), n)
  {
    var after, more := block + EncodeSequence(lits, offset, mc), CopyMatch(done + lits, offset, mc + MIN_MATCH);
    forall rest: seq<Byte> ensures EncodesBefore(after, more, n, rest) {
      EncodesSequenceBefore(block, done, n, lits, offset, mc, rest);
    }
  }

  /** A closing run of literals completes a legal block that means everything encoded. */
  lemma {:induction false} EncodesLast(block: seq<Byte>, done: seq<Byte>, n: nat, lits: seq<Byte>)
    requires Encodes(block, done, n) && |done| + |lits| == n
    ensures Legal(block + EncodeLast(lits), n) && Meaning(block + EncodeLast(lits)) == Some(done + lits)
  {
    hide MeaningFrom, LegalFrom, ReadLength;
    var last := EncodeLast(lits);
    var src := block + last;
    assert EncodesBefore(block, done, n, last);
    var i := |block| + 1 + |ExtraBytes(|lits|)|;
    assert src[|block| + 1..i] == ExtraBytes(|lits|);
    assert src[i..] == lits;
    ReadLengthAt(src, |block| + 1, |lits|);
    LastStep(src, |block|, |lits|, i, done, n);
  }

  /** A match in the source expands to the source. */
  lemma {:induction false} MatchExpands(src: seq<Byte>, ip: nat, source: nat, len: nat)
    requires source < ip && ip + len <= |src| && src[source..source + len] == src[ip..ip + len]
    ensures CopyMatch(src[..ip], ip - source, len) == src[..ip + len]
  {
    var all, offset := src[..ip + len], ip - source;
    forall i | ip <= i < |all| ensures CopiedAt(all, offset, i) {
      assert src[source..source + len][i - ip] == src[ip..ip + len][i - ip];
    }
    assert all[..ip] == src[..ip];
    CopiedIsMatch(all, src[..ip], offset);
  }

  // --------------------------------------------------------- match finding

  function Width(tt: TableType): nat
  {
    if tt == ByU16 then 4 else 8
  }

  /** `LZ4_hashPosition`: an arbitrary hash of the bytes it reads. */
  function Slot(src: seq<Byte>, p: nat, tt: TableType, hash: seq<Byte> -> nat): nat
    requires p + Width(tt) <= |src|
  {
    hash(src[p..p + Width(tt)])
  }

  /** What a table cell holds after storing an index: the 16-bit table truncates. */
  function Stored(idx: nat, tt: TableType): nat
  {
    if tt == ByU16 then idx % 65536 else idx
  }

  ghost predicate TableBelow(table: array<nat>, p: nat)
    reads table
  {
    forall i :: 0 <= i < table.Length ==> table[i] < p
  }

  predicate SameWord(src: seq<Byte>, a: nat, b: nat)
    requires a + 4 <= |src| && b + 4 <= |src|
  {
    src[a..a + 4] == src[b..b + 4]
  }

  /** A match worth emitting at `ip`: in range, and within the format's distance. */
  ghost predicate Candidate(src: seq<Byte>, source: nat, ip: nat)
  {
    && source < ip <= |src| - MF_LIMIT
    && ip - source <= DISTANCE_MAX
    && SameWord(src, source, ip)
  }

  ghost predicate FitsTable(src: seq<Byte>, tt: TableType)
  {
    |src| > MF_LIMIT && (tt == ByU16 ==> |src| < LIMIT_64K)
  }

  /** One position is tried: its cell is read and then holds it. */
  method TryAt(src: seq<Byte>, ip: nat, tt: TableType, hash: seq<Byte> -> nat, table: array<nat>, h: nat)
    returns (m: nat, hit: bool)
    requires FitsTable(src, tt) && ip <= |src| - MF_LIMIT && h < table.Length && TableBelow(table, ip)
    modifies table
    ensures m == old(table[h]) && table[..] == old(table[..])[h := ip] && TableBelow(table, ip + 1)
    ensures (hit <==> Hits(Job(src, tt, hash), m, ip)) && (hit ==> Candidate(src, m, ip))
  {
    m := table[h];
    table[h] := Stored(ip, tt);
    if tt == ByU32 && m + DISTANCE_MAX < ip { return m, false; }
    hit := SameWord(src, m, ip);
  }

  lemma SlotIsKey(src: seq<Byte>, p: nat, tt: TableType, hash: seq<Byte> -> nat, size: nat)
    requires Hashes(hash, size) && p + 8 <= |src|
    ensures Slot(src, p, tt, hash) == Key(Job(src, tt, hash), p) < size
  {
  }

  lemma BelowEarlier(src: seq<Byte>, tt: TableType, hash: seq<Byte> -> nat, table: array<nat>, p: nat)
    requires FitsTable(src, tt) && Hashes(hash, table.Length) && TableBelow(table, p)
    ensures Ready(Job(src, tt, hash), table[..]) && Earlier(table[..], p)
  {
  }

  lemma SearchStep(c: Job, table: seq<nat>, p: nat, k: nat)
    requires Ready(c, table) && Earlier(table, p) && p + 11 <= |c.src|
    ensures p + Stride(k) + 11 > |c.src| ==> Search(c, table, p, k) == None
    ensures Stride(k + 1) == (64 + k) / 64
    ensures p + Stride(k) + 11 <= |c.src| ==>
      && Key(c, p) < |table|
      && Ready(c, table[Key(c, p) := p]) && Earlier(table[Key(c, p) := p], p + 1)
      && Search(c, table, p, k) ==
         if Hits(c, table[Key(c, p)], p) then Some(Found(p, table[Key(c, p)], table[Key(c, p) := p]))
         else Search(c, table[Key(c, p) := p], p + Stride(k), k + 1)
  {
    hide Hits, Key;
    KeyFits(c, p, |table|);
  }

  /** The search loop: strides forward, faster the longer nothing matches. The candidate read is always
      an earlier position; the 16-bit table needs no distance check because no position it can hold
      is further away than the format allows. */
  method FindMatch(src: seq<Byte>, start: nat, tt: TableType, hash: seq<Byte> -> nat, table: array<nat>)
    returns (r: Option<(nat, nat)>)
    requires FitsTable(src, tt) && Hashes(hash, table.Length)
    requires start <= |src| - MF_LIMIT + 1 && TableBelow(table, start)
    modifies table
    ensures r.Some? ==> start <= r.value.0 && Candidate(src, r.value.1, r.value.0) && TableBelow(table, r.value.0 + 1)
    ensures Ready(Job(src, tt, hash), old(table[..])) && Earlier(old(table[..]), start)
    ensures
      var f := Search(Job(src, tt, hash), old(table[..]), start, 0);
      if r.None? then f.None? else f == Some(Found(r.value.0, r.value.1, table[..]))
  {
    hide Search, Hits, Key, Stride, Candidate, Hashes, Earlier;
    ghost var c, before, k := Job(src, tt, hash), table[..], 0;
    BelowEarlier(src, tt, hash, table, start);
    var forwardIp, step, searchMatchNb := start, 1, 64;
    var forwardH := Slot(src, forwardIp, tt, hash);
    SlotIsKey(src, forwardIp, tt, hash, table.Length);
    FirstStride();
    while true
      invariant start <= forwardIp <= |src| - MF_LIMIT + 1 && TableBelow(table, forwardIp)
      invariant step == Stride(k) && searchMatchNb == 64 + k
      invariant forwardH == Slot(src, forwardIp, tt, hash) == Key(c, forwardIp) < table.Length
      invariant Ready(c, table[..]) && Earlier(table[..], forwardIp)
      invariant Search(c, table[..], forwardIp, k) == Search(c, before, start, 0)
      decreases |src| - forwardIp
    {
      var h := forwardH;
      var ip := forwardIp;
      SearchStep(c, table[..], ip, k);
      forwardIp := forwardIp + step;
      step := searchMatchNb / 64;
      searchMatchNb := searchMatchNb + 1;
      if forwardIp > |src| - MF_LIMIT + 1 { return None; }
      forwardH := Slot(src, forwardIp, tt, hash);
      SlotIsKey(src, forwardIp, tt, hash, table.Length);
      var matchIndex, hit := TryAt(src, ip, tt, hash, table, h);
      if hit { return Some((ip, matchIndex)); }
      BelowEarlier(src, tt, hash, table, forwardIp);
      k := k + 1;
    }
  }

  lemma FirstStride()
    ensures Stride(0) == 1
  {
  }

  /** After a match: two positions enter the table and the next one is tried at once. */
  method TestNext(src: seq<Byte>, ip: nat, tt: TableType, hash: seq<Byte> -> nat, table: array<nat>)
    returns (r: Option<nat>)
    requires FitsTable(src, tt) && Hashes(hash, table.Length)
    requires 2 <= ip <= |src| - MF_LIMIT && TableBelow(table, ip)
    modifies table
    ensures TableBelow(table, ip + 1)
    ensures r.Some? ==> Candidate(src, r.value, ip)
    ensures
      var c := Job(src, tt, hash);
      && Key(c, ip - 2) < table.Length && Key(c, ip) < table.Length
      && var first := old(table[..])[Key(c, ip - 2) := ip - 2];
      var m := first[Key(c, ip)];
      r == (if Hits(c, m, ip) then Some(m) else None) && table[..] == first[Key(c, ip) := ip]
  {
    hide Hits, Candidate, Hashes, Key;
    SlotIsKey(src, ip - 2, tt, hash, table.Length);
    SlotIsKey(src, ip, tt, hash, table.Length);
    table[Slot(src, ip - 2, tt, hash)] := Stored(ip - 2, tt);
    var m, hit := TryAt(src, ip, tt, hash, table, Slot(src, ip, tt, hash));
    r := if hit then Some(m) else None;
  }

  ghost predicate SameRun(src: seq<Byte>, a: nat, b: nat, len: nat)
  {
    a + len <= |src| && b + len <= |src| && src[a..a + len] == src[b..b + len]
  }

  lemma WordIsRun(src: seq<Byte>, a: nat, b: nat)
    requires a + 4 <= |src| && b + 4 <= |src| && SameWord(src, a, b)
    ensures SameRun(src, a, b, 4)
  {
  }

  lemma OneBefore(src: seq<Byte>, a: nat, b: nat, len: nat)
    requires 0 < a && 0 < b && SameRun(src, a, b, len) && src[a - 1] == src[b - 1]
    ensures SameRun(src, a - 1, b - 1, len + 1)
  {
    assert src[a - 1..a + len] == [src[a - 1]] + src[a..a + len];
    assert src[b - 1..b + len] == [src[b - 1]] + src[b..b + len];
  }

  /** The bytes in front of both ends of a match that also agree join it. */
  method CatchUp(src: seq<Byte>, anchor: nat, ip0: nat, source0: nat) returns (ip: nat, source: nat)
    requires anchor <= ip0 && source0 < ip0 && ip0 + 4 <= |src| && SameWord(src, source0, ip0)
    ensures anchor <= ip <= ip0 && source < ip && ip0 - ip == source0 - source
    ensures SameRun(src, source, ip, ip0 + 4 - ip)
    ensures (ip, source) == CaughtUp(src, anchor, ip0, source0)
  {
    hide CaughtUp, SameRun;
    WordIsRun(src, source0, ip0);
    ip, source := ip0, source0;
    while ip > anchor && source > 0 && src[ip - 1] == src[source - 1]
      invariant anchor <= ip <= ip0 && source < ip && ip0 - ip == source0 - source
      invariant CaughtUp(src, anchor, ip, source) == CaughtUp(src, anchor, ip0, source0)
      invariant SameRun(src, source, ip, ip0 + 4 - ip)
    {
      OneBefore(src, source, ip, ip0 + 4 - ip);
      CaughtStep(src, anchor, ip, source);
      ip, source := ip - 1, source - 1;
    }
    CaughtStep(src, anchor, ip, source);
  }

  lemma CaughtStep(src: seq<Byte>, anchor: nat, ip: nat, source: nat)
    requires anchor <= ip <= |src| && source < ip
    ensures CaughtUp(src, anchor, ip, source) ==
      if ip > anchor && source > 0 && src[ip - 1] == src[source - 1] then CaughtUp(src, anchor, ip - 1, source - 1)
      else (ip, source)
  {
  }

  /** `LZ4_NbCommonBytes`: the index of the first differing byte. */
  function NbCommonBytes(a: seq<Byte>, b: seq<Byte>): (k: nat)
    requires |a| == |b| && a != b
    ensures k < |a| && a[..k] == b[..k] && a[k] != b[k]
  {
    if a[0] != b[0] then 0
    else
      assert a == [a[0]] + a[1..] && b == [b[0]] + b[1..];
      1 + NbCommonBytes(a[1..], b[1..])
  }

  lemma ExtendRun(src: seq<Byte>, a: nat, b: nat, k: nat, m: nat)
    requires a + k + m <= |src| && b + k + m <= |src|
    requires src[a..a + k] == src[b..b + k] && src[a + k..a + k + m] == src[b + k..b + k + m]
    ensures src[a..a + k + m] == src[b..b + k + m]
  {
    assert src[a..a + k + m] == src[a..a + k] + src[a + k..a + k + m];
    assert src[b..b + k + m] == src[b..b + k] + src[b + k..b + k + m];
  }

  /** The longest common run before the limit. */
  ghost predicate LongestRun(src: seq<Byte>, p: nat, m: nat, limit: nat, k: nat)
    requires m < p <= limit <= |src|
  {
    p + k <= limit && src[m..m + k] == src[p..p + k] && (p + k < limit ==> src[m + k] != src[p + k])
  }

  lemma LongerRun(src: seq<Byte>, p: nat, m: nat, limit: nat, k: nat, t: nat)
    requires m < p && p + k <= limit <= |src| && src[m..m + k] == src[p..p + k]
    requires LongestRun(src, p + k, m + k, limit, t)
    ensures LongestRun(src, p, m, limit, k + t)
  {
    ExtendRun(src, m, p, k, t);
  }

  /** The number of leading bytes on which two words agree. */
  method CompareWord(src: seq<Byte>, p: nat, m: nat) returns (c: nat)
    requires m < p && p + 8 <= |src|
    ensures c <= 8 && src[m..m + c] == src[p..p + c]
    ensures c < 8 ==> src[m + c] != src[p + c]
  {
    var a, b := src[m..m + 8], src[p..p + 8];
    if a == b { return 8; }
    c := NbCommonBytes(a, b);
    assert src[m..m + c] == a[..c] && src[p..p + c] == b[..c];
  }

  /** Four bytes that differ while their first two agree differ in the last two. */
  lemma SecondPairDiffers(src: seq<Byte>, m: nat, p: nat)
    requires m + 4 <= |src| && p + 4 <= |src|
    requires src[m..m + 4] != src[p..p + 4] && src[m..m + 2] == src[p..p + 2]
    ensures src[m + 2..m + 4] != src[p + 2..p + 4]
  {
    assert src[m..m + 4] == src[m..m + 2] + src[m + 2..m + 4];
    assert src[p..p + 4] == src[p..p + 2] + src[p + 2..p + 4];
  }

  /** The words in the middle of `LZ4_count`; stops at the first differing word. */
  method CountWords(src: seq<Byte>, p: nat, m: nat, limit: nat) returns (k: nat, stopped: bool)
    requires m < p <= limit <= |src|
    ensures p + k <= limit && src[m..m + k] == src[p..p + k]
    ensures stopped ==> p + k < limit && src[m + k] != src[p + k]
    ensures !stopped ==> p + k + 8 > limit
  {
    k, stopped := 0, false;
    while p + k < limit - 7
      invariant p + k <= limit && src[m..m + k] == src[p..p + k]
    {
      var c := CompareWord(src, p + k, m + k);
      ExtendRun(src, m, p, k, c);
      k := k + c;
      if c < 8 { return k, true; }
    }
  }

  /** The last byte of `LZ4_count`, when the next two are known not to agree. */
  method CountByte(src: seq<Byte>, p: nat, m: nat, limit: nat) returns (k: nat)
    requires m < p <= limit <= |src| && (limit < p + 2 || src[m..m + 2] != src[p..p + 2])
    ensures LongestRun(src, p, m, limit, k)
  {
    k := if p < limit && src[m] == src[p] then 1 else 0;
  }

  method CountPair(src: seq<Byte>, p: nat, m: nat, limit: nat) returns (k: nat)
    requires m < p <= limit <= |src| && (limit < p + 4 || src[m..m + 4] != src[p..p + 4])
    ensures LongestRun(src, p, m, limit, k)
  {
    hide LongestRun;
    if p < limit - 1 && src[m..m + 2] == src[p..p + 2] {
      if limit >= p + 4 { SecondPairDiffers(src, m, p); }
      k := CountByte(src, p + 2, m + 2, limit);
      LongerRun(src, p, m, limit, 2, k);
      k := 2 + k;
    } else {
      k := CountByte(src, p, m, limit);
    }
  }

  /** The narrower comparisons that close `LZ4_count`, with fewer than eight bytes to go. */
  method CountTail(src: seq<Byte>, p: nat, m: nat, limit: nat) returns (k: nat)
    requires m < p <= limit <= |src| && limit < p + 8
    ensures LongestRun(src, p, m, limit, k)
  {
    hide LongestRun;
    if p < limit - 3 && src[m..m + 4] == src[p..p + 4] {
      k := CountPair(src, p + 4, m + 4, limit);
      LongerRun(src, p, m, limit, 4, k);
      k := 4 + k;
    } else {
      k := CountPair(src, p, m, limit);
    }
  }

  /** `LZ4_count`: exactly the longest common run before the limit, found a word at a time. */
  method Count(src: seq<Byte>, p: nat, m: nat, limit: nat) returns (k: nat)
    requires m < p <= limit <= |src|
    ensures LongestRun(src, p, m, limit, k)
  {
    var stopped;
    k, stopped := CountWords(src, p, m, limit);
    if !stopped {
      var t := CountTail(src, p + k, m + k, limit);
      LongerRun(src, p, m, limit, k, t);
      k := k + t;
    }
  }

  // --------------------------------------------------------------- writing

  function Ones(k: nat): seq<Byte>
  {
    seq(k, _ => 255)
  }

  lemma OnesJoin(before: seq<Byte>, a: nat, b: nat)
    ensures (before + Ones(a)) + Ones(b) == before + Ones(a + b) && Ones(1) == [255]
  {
  }

  lemma OnesBeginning(before: seq<Byte>, a: nat, b: nat)
    requires a <= b
    ensures |Ones(b)| == b && (before + Ones(b))[..|before| + a] == before + Ones(a) && before + Ones(0) == before
  {
  }

  lemma {:induction false} LongBytesAreOnes(x: nat)
    ensures LongBytes(x) == Ones(x / 255) + [x % 255]
  {
    if x >= 255 {
      LongBytesAreOnes(x - 255);
      assert Ones(x / 255) == [255] + Ones(x / 255 - 1);
    }
  }

  lemma Quotient(k: nat, rest: nat, len: nat)
    requires len == 255 * k + rest
    ensures len / 255 == k + rest / 255 && len % 255 == rest % 255
  {
  }

  /** `*op++ = b`. */
  method PutByte(dst: array<Byte>, at: nat, b: Byte) returns (op: nat)
    requires at < dst.Length
    modifies dst
    ensures op == at + 1 && dst[..op] == old(dst[..at]) + [b]
  {
    dst[at] := b;
    op := at + 1;
  }

  /** The literal-length loop: one 255 at a time. */
  method WriteLong(dst: array<Byte>, start: nat, len: nat) returns (op: nat)
    requires start + len / 255 + 1 <= dst.Length
    modifies dst
    ensures op == start + len / 255 + 1 && dst[..op] == old(dst[..start]) + LongBytes(len)
  {
    hide Ones, LongBytes;
    ghost var before := dst[..start];
    OnesBeginning(before, 0, 0);
    Quotient(0, len, len);
    var rest := len;
    op := start;
    while rest >= 255
      invariant start <= op && len == 255 * (op - start) + rest
      invariant dst[..op] == before + Ones(op - start)
    {
      Quotient(op - start, rest, len);
      op := PutByte(dst, op, 255);
      OnesJoin(before, op - start - 1, 1);
      rest := rest - 255;
    }
    LongBytesAreOnes(len);
    Quotient(op - start, rest, len);
    op := PutByte(dst, op, rest);
    assert (before + Ones(len / 255)) + [rest] == before + (Ones(len / 255) + [rest]);
  }

  /** Four bytes 0xFF at `op`. */
  method WriteOnes(dst: array<Byte>, op: nat)
    requires op + 4 <= dst.Length
    modifies dst
    ensures dst[..op + 4] == old(dst[..op]) + Ones(4)
  {
    CopyIn(dst, op, Ones(4), 0, 4);
  }

  /** Four 255s at a time, written ahead of knowing how many count. */
  method WriteAhead(dst: array<Byte>, start: nat, len: nat) returns (op: nat, rest: nat)
    requires start + len / 255 + 4 <= dst.Length
    modifies dst
    ensures start <= op && op + 4 <= dst.Length && rest < 4 * 255 && len == 255 * (op - start) + rest
    ensures dst[..op + 4] == old(dst[..start]) + Ones(op - start + 4)
  {
    hide Ones;
    ghost var before := dst[..start];
    op, rest := start, len;
    WriteOnes(dst, op);
    while rest >= 4 * 255
      invariant start <= op && len == 255 * (op - start) + rest
      invariant op + 4 <= dst.Length && dst[..op + 4] == before + Ones(op - start + 4)
    {
      Quotient(op - start, rest, len);
      op := op + 4;
      WriteOnes(dst, op);
      OnesJoin(before, op - start, 4);
      rest := rest - 4 * 255;
    }
  }

  /** The match-length loop, and the remainder behind the 255s that count. */
  method WriteMatchLong(dst: array<Byte>, start: nat, len: nat) returns (op: nat)
    requires start + len / 255 + 4 <= dst.Length
    modifies dst
    ensures op == start + len / 255 + 1 && dst[..op] == old(dst[..start]) + LongBytes(len)
  {
    hide Ones, LongBytes;
    ghost var before := dst[..start];
    var rest;
    op, rest := WriteAhead(dst, start, len);
    LongBytesAreOnes(len);
    Quotient(op - start, rest, len);
    OnesBeginning(before, len / 255, op - start + 4);
    Beginning(dst, op + rest / 255, op + 4);
    op := PutByte(dst, op + rest / 255, rest % 255);
    assert (before + Ones(len / 255)) + [len % 255] == before + (Ones(len / 255) + [len % 255]);
  }

  /** Token and literals; the literals are copied eight bytes at a time, past their end. */
  method EmitLiterals(src: seq<Byte>, dst: array<Byte>, token: nat, anchor: nat, ll: nat) returns (op: nat)
    requires token + 1 + ll + 8 + ll / 255 <= dst.Length && anchor + ll + 8 <= |src|
    modifies dst
    ensures op == token + |EncodeLast(src[anchor..anchor + ll])| == token + 1 + |ExtraBytes(ll)| + ll
    ensures dst[..op] == old(dst[..token]) + EncodeLast(src[anchor..anchor + ll])
  {
    ghost var before, head, lits := dst[..token], [16 * Nibble(ll)] + ExtraBytes(ll), src[anchor..anchor + ll];
    op := EmitRunLength(dst, token, ll);
    WildCopyIn(dst, op, src, anchor, op + ll, 8);
    assert before + head + lits == before + (head + lits);
    assert EncodeLast(lits) == head + lits;
    op := op + ll;
  }

  /** The token of a run of literals and the rest of its length. */
  method EmitRunLength(dst: array<Byte>, token: nat, ll: nat) returns (op: nat)
    requires token + 1 + (ll + 240) / 255 <= dst.Length
    modifies dst
    ensures op == token + 1 + |ExtraBytes(ll)|
    ensures dst[..op] == old(dst[..token]) + ([16 * Nibble(ll)] + ExtraBytes(ll))
  {
    op := token + 1;
    if ll >= 15 {
      dst[token] := 240;
      op := WriteLong(dst, op, ll - 15);
    } else {
      dst[token] := 16 * ll;
    }
  }

  /** The low half of the token and the rest of the match length, at its place behind the offset. */
  method EmitMatchLength(dst: array<Byte>, token: nat, start: nat, mc: nat) returns (op: nat)
    requires token < start <= dst.Length && dst[token] % 16 == 0 && (mc >= 15 ==> start + mc / 255 + 4 <= dst.Length)
    modifies dst
    ensures op == start + |ExtraBytes(mc)|
    ensures
      var head := old(dst[..start]);
      dst[..op] == head[token := head[token] + Nibble(mc)] + ExtraBytes(mc)
  {
    ghost var head := dst[..start];
    dst[token] := dst[token] + Nibble(mc);
    assert dst[..start] == head[token := head[token] + Nibble(mc)];
    op := start;
    if mc >= 15 { op := WriteMatchLong(dst, op, mc - 15); }
  }

  lemma Assemble(block: seq<Byte>, t: Byte, x: seq<Byte>, o: seq<Byte>, v: Byte, y: seq<Byte>)
    ensures (block + ([t] + x) + o)[|block| := v] + y == block + ([v] + x + o + y)
  {
  }

  /** A run of literals, an offset and a match length make the encoding of one sequence. */
  lemma SequenceFromRun(block: seq<Byte>, lits: seq<Byte>, offset: nat, mc: nat)
    requires offset < 65536
    ensures
      var head := block + EncodeLast(lits) + [offset % 256, offset / 256];
      && head[|block|] % 16 == 0
      && head[|block| := head[|block|] + Nibble(mc)] + ExtraBytes(mc) == block + EncodeSequence(lits, offset, mc)
  {
    hide Nibble, ExtraBytes;
    var t, x := 16 * Nibble(|lits|), ExtraBytes(|lits|) + lits;
    assert EncodeLast(lits) == [t] + x;
    Assemble(block, t, x, [offset % 256, offset / 256], t + Nibble(mc), ExtraBytes(mc));
    assert [t + Nibble(mc)] + x + [offset % 256, offset / 256] + ExtraBytes(mc) == EncodeSequence(lits, offset, mc);
  }

  // ------------------------------------------------------------ sequences

  /** The room a compressor has: enough for any input, or an output limit checked on the way. */
  ghost predicate Room(src: seq<Byte>, dst: array<Byte>, limited: bool)
  {
    |src| <= MAX_INPUT_SIZE && (limited || dst.Length >= CompressBound(|src|))
  }

  /** `op` bytes of output stand for the first `anchor` bytes of the source, and are no more
      than those could ever need. */
  ghost predicate Written(src: seq<Byte>, dst: array<Byte>, anchor: nat, op: nat)
    reads dst
  {
    && op <= dst.Length && anchor <= |src|
    && op <= anchor + anchor / 255
    && Encodes(dst[..op], src[..anchor], |src|)
  }

  lemma WrittenFits(src: seq<Byte>, dst: array<Byte>, anchor: nat, op: nat)
    requires Written(src, dst, anchor, op)
    ensures op <= dst.Length && anchor <= |src|
  {
    hide Encodes;
  }

  /** A match costs less output than the source bytes it covers, and its stores stay inside
      the compression bound. */
  lemma MatchRoom(n: nat, ip: nat, mc: nat, start: nat)
    requires start <= ip + ip / 255 + 2 && ip + MIN_MATCH + mc + LAST_LITERALS <= n <= MAX_INPUT_SIZE
    ensures start + 2 + mc / 255 + 4 <= CompressBound(n)
    ensures start + 2 + |ExtraBytes(mc)| <= (ip + MIN_MATCH + mc) + (ip + MIN_MATCH + mc) / 255
    ensures |ExtraBytes(mc)| <= (mc + 240) / 255
  {
    assert ip / 255 <= n / 255;
    assert mc / 255 <= mc;
  }

  lemma RunByte(src: seq<Byte>, a: nat, b: nat, len: nat, i: nat)
    requires i < len && a + len <= |src| && b + len <= |src| && src[a..a + len] == src[b..b + len]
    ensures src[a + i] == src[b + i]
  {
    assert src[a..a + len][i] == src[b..b + len][i];
  }

  /** The counted match is at least as long as what was known to agree. */
  lemma CountedRun(src: seq<Byte>, source: nat, ip: nat, mc: nat, agreed: nat)
    requires source < ip && MIN_MATCH <= agreed && ip + agreed <= |src| - LAST_LITERALS
    requires src[source..source + agreed] == src[ip..ip + agreed]
    requires ip + MIN_MATCH + mc <= |src| - LAST_LITERALS
    requires src[source + MIN_MATCH..source + MIN_MATCH + mc] == src[ip + MIN_MATCH..ip + MIN_MATCH + mc]
    requires ip + MIN_MATCH + mc < |src| - LAST_LITERALS ==> src[source + MIN_MATCH + mc] != src[ip + MIN_MATCH + mc]
    ensures agreed <= MIN_MATCH + mc
    ensures src[source..source + MIN_MATCH + mc] == src[ip..ip + MIN_MATCH + mc]
  {
    if MIN_MATCH + mc < agreed { RunByte(src, source, ip, agreed, MIN_MATCH + mc); }
    assert src[source..source + MIN_MATCH] == src[source..source + agreed][..MIN_MATCH]
        == src[ip..ip + agreed][..MIN_MATCH] == src[ip..ip + MIN_MATCH];
    ExtendRun(src, source, ip, MIN_MATCH, mc);
  }

  /** What emitting such a match adds to the block. */
  lemma {:induction false} MatchFound(src: seq<Byte>, anchor: nat, ip: nat, source: nat, mc: nat, block: seq<Byte>)
    requires source < ip <= |src| - MF_LIMIT && ip - source <= DISTANCE_MAX && anchor <= ip
    requires ip + MIN_MATCH + mc <= |src| - LAST_LITERALS
    requires src[source..source + MIN_MATCH + mc] == src[ip..ip + MIN_MATCH + mc]
    requires Encodes(block, src[..anchor], |src|)
    ensures Encodes(block + EncodeSequence(src[anchor..ip], ip - source, mc), src[..ip + MIN_MATCH + mc], |src|)
  {
    hide Encodes, EncodeSequence, CopyMatch;
    var done, lits := src[..anchor], src[anchor..ip];
    MatchExpands(src, ip, source, MIN_MATCH + mc);
    assert done + lits == src[..ip];
    EncodesSequence(block, done, |src|, lits, ip - source, mc);
  }

  /** The stores of one match, behind a token and literals already written. */
  method EmitMatch(src: seq<Byte>, dst: array<Byte>, token: nat, start: nat, offset: nat, mc: nat,
                   ghost block: seq<Byte>, ghost lits: seq<Byte>)
    returns (op: nat)
    requires token == |block| && start + 2 <= dst.Length && (mc >= 15 ==> start + 2 + mc / 255 + 4 <= dst.Length)
    requires offset < 65536
    requires dst[..start + 2] == block + EncodeLast(lits) + [offset % 256, offset / 256]
    modifies dst
    ensures op == start + 2 + |ExtraBytes(mc)| && op <= dst.Length
    ensures dst[..op] == block + EncodeSequence(lits, offset, mc)
  {
    SequenceFromRun(block, lits, offset, mc);
    ghost var head := dst[..start + 2];
    assert dst[token] == head[token];
    op := EmitMatchLength(dst, token, start + 2, mc);
  }

  /** `LZ4_writeLE16`. */
  method PutOffset(dst: array<Byte>, op: nat, offset: nat)
    requires op + 2 <= dst.Length && offset < 65536
    modifies dst
    ensures dst[..op + 2] == old(dst[..op]) + [offset % 256, offset / 256]
  {
    dst[op], dst[op + 1] := offset % 256, offset / 256;
  }

  /** The end of the counted run is where a match ends. */
  lemma CountedEnd(src: seq<Byte>, ip: nat, source: nat, mc: nat)
    requires source < ip && ip + 4 + mc + 5 <= |src|
    requires src[source + 4..source + 4 + mc] == src[ip + 4..ip + 4 + mc]
    requires ip + 4 + mc + 5 < |src| ==> src[source + 4 + mc] != src[ip + 4 + mc]
    ensures MatchEnd(src, ip, source, 4) == ip + 4 + mc
  {
    forall i | ip + 4 <= i < ip + 4 + mc ensures src[i] == src[i - (ip - source)] {
      assert src[ip + 4..ip + 4 + mc][i - ip - 4] == src[source + 4..source + 4 + mc][i - ip - 4];
    }
    EndUnique(src, ip, source, 4, ip + 4 + mc);
  }

  /** A counted match: it ends where matches end, behind what was known to agree, and its sequence encodes
      the source up to there. */
  lemma MatchCounted(src: seq<Byte>, anchor: nat, ip: nat, source: nat, mc: nat, agreed: nat, block: seq<Byte>)
    requires source < ip <= |src| - MF_LIMIT && ip - source <= DISTANCE_MAX && anchor <= ip
    requires MIN_MATCH <= agreed && ip + agreed <= |src| - LAST_LITERALS && SameRun(src, source, ip, agreed)
    requires LongestRun(src, ip + MIN_MATCH, source + MIN_MATCH, |src| - LAST_LITERALS, mc)
    requires Encodes(block, src[..anchor], |src|)
    ensures agreed <= MIN_MATCH + mc && MatchEnd(src, ip, source, 4) == ip + MIN_MATCH + mc <= |src| - LAST_LITERALS
    ensures Encodes(block + EncodeSequence(src[anchor..ip], ip - source, mc), src[..ip + MIN_MATCH + mc], |src|)
  {
    hide Encodes, EncodeSequence, MatchEnd;
    CountedRun(src, source, ip, mc, agreed);
    CountedEnd(src, ip, source, mc);
    MatchFound(src, anchor, ip, source, mc, block);
  }

  /** From `_next_match` to the end of the sequence. `agreed` bytes are known to match. */
  method NextMatch(src: seq<Byte>, dst: array<Byte>, token: nat, start: nat, anchor: nat, ip: nat, source: nat,
                   limited: bool, ghost block: seq<Byte>, ghost agreed: nat)
    returns (ok: bool, op: nat, next: nat)
    requires Room(src, dst, limited)
    requires source < ip <= |src| - MF_LIMIT && ip - source <= DISTANCE_MAX && anchor <= ip
    requires MIN_MATCH <= agreed && ip + agreed <= |src| - LAST_LITERALS && SameRun(src, source, ip, agreed)
    requires token == |block| && Encodes(block, src[..anchor], |src|)
    requires start + 2 <= dst.Length && start <= ip + ip / 255 + 2
    requires dst[..start] == block + EncodeLast(src[anchor..ip])
    modifies dst
    ensures !ok ==> limited
    ensures ok ==> ip + agreed <= next <= |src| - LAST_LITERALS && Written(src, dst, next, op)
    ensures ok && limited ==> op + 6 <= dst.Length
    ensures ok ==>
      && next == MatchEnd(src, ip, source, 4)
      && dst[..op] == block + EncodeSequence(src[anchor..ip], ip - source, next - ip - 4)
  {
    hide Encodes, EncodeLast, EncodeSequence, CompressBound, MatchEnd, ExtraBytes, Written, SameRun, LongestRun;
    var offset := ip - source;
    PutOffset(dst, start, offset);
    var mc := Count(src, ip + MIN_MATCH, source + MIN_MATCH, |src| - LAST_LITERALS);
    if limited && start + 2 + 6 + (mc + 240) / 255 > dst.Length { return false, 0, 0; }
    MatchCounted(src, anchor, ip, source, mc, agreed, block);
    MatchRoom(|src|, ip, mc, start);
    op := EmitMatch(src, dst, token, start, offset, mc, block, src[anchor..ip]);
    ok, next := true, ip + MIN_MATCH + mc;
    IsWritten(src, dst, next, op);
  }

  lemma IsWritten(src: seq<Byte>, dst: array<Byte>, anchor: nat, op: nat)
    requires op <= dst.Length && anchor <= |src| && op <= anchor + anchor / 255
    requires Encodes(dst[..op], src[..anchor], |src|)
    ensures Written(src, dst, anchor, op)
  {
  }

  lemma {:induction false} EncodesNothing(n: nat)
    ensures Encodes([], [], n)
  {
    forall rest: seq<Byte> ensures EncodesBefore([], [], n, rest) {
      assert [] + rest == rest;
    }
  }

  /** Literals cost their own number and one byte in 255; the over-copy stays in bounds. */
  lemma LiteralRoom(n: nat, anchor: nat, ll: nat, op: nat)
    requires op <= anchor + anchor / 255 && anchor + ll + MF_LIMIT <= n <= MAX_INPUT_SIZE
    ensures op + 1 + ll + 8 + ll / 255 <= CompressBound(n)
    ensures op + 1 + |ExtraBytes(ll)| + ll <= (anchor + ll) + (anchor + ll) / 255 + 2
    ensures |ExtraBytes(ll)| <= ll / 255 + 1
  {
    assert anchor / 255 + ll / 255 <= (anchor + ll) / 255 <= n / 255;
  }

  /** A found match with the literals before it, and what agrees in front of both its ends. */
  method FirstSequence(src: seq<Byte>, dst: array<Byte>, anchor: nat, token: nat, found: nat, candidate: nat,
                       limited: bool)
    returns (ok: bool, op: nat, next: nat)
    requires Room(src, dst, limited) && Written(src, dst, anchor, token)
    requires anchor < found && Candidate(src, candidate, found)
    modifies dst
    ensures !ok ==> limited
    ensures ok ==> found + MIN_MATCH <= next <= |src| - LAST_LITERALS && Written(src, dst, next, op)
    ensures ok && limited ==> op + 6 <= dst.Length
    ensures ok ==>
      var (ip, source) := CaughtUp(src, anchor, found, candidate);
      && ip + 9 <= |src| && next == MatchEnd(src, ip, source, 4) && ip - source < 65536
      && dst[..op] == old(dst[..token]) + EncodeSequence(src[anchor..ip], ip - source, next - ip - 4)
  {
    hide Encodes, EncodeLast, EncodeSequence, ExtraBytes, CompressBound, MatchEnd, CaughtUp, SameRun;
    ghost var block := dst[..token];
    var ip, source := CatchUp(src, anchor, found, candidate);
    var ll := ip - anchor;
    if limited && token + 1 + ll + 8 + ll / 255 > dst.Length { return false, 0, 0; }
    LiteralRoom(|src|, anchor, ll, token);
    var start := EmitLiterals(src, dst, token, anchor, ll);
    assert src[anchor..anchor + ll] == src[anchor..ip];
    ok, op, next := NextMatch(src, dst, token, start, anchor, ip, source, limited, block, found + MIN_MATCH - ip);
  }

  /** A match right behind another: an empty run of literals. */
  method ImmediateMatch(src: seq<Byte>, dst: array<Byte>, ip: nat, token: nat, source: nat, limited: bool)
    returns (ok: bool, op: nat, next: nat)
    requires Room(src, dst, limited) && Written(src, dst, ip, token) && (limited ==> token + 6 <= dst.Length)
    requires Candidate(src, source, ip)
    modifies dst
    ensures !ok ==> limited
    ensures ok ==> ip + MIN_MATCH <= next <= |src| - LAST_LITERALS && Written(src, dst, next, op)
    ensures ok && limited ==> op + 6 <= dst.Length
    ensures ok ==>
      && next == MatchEnd(src, ip, source, 4)
      && dst[..op] == old(dst[..token]) + EncodeSequence([], ip - source, next - ip - 4)
  {
    hide Encodes, EncodeLast, EncodeSequence, ExtraBytes, CompressBound, MatchEnd, SameRun;
    ghost var block := dst[..token];
    WordIsRun(src, source, ip);
    LiteralRoom(|src|, ip, 0, token);
    var start := PutByte(dst, token, 0);
    EmptyRun(src, ip);
    ok, op, next := NextMatch(src, dst, token, start, ip, ip, source, limited, block, MIN_MATCH);
  }

  lemma EmptyRun(src: seq<Byte>, ip: nat)
    requires ip <= |src|
    ensures src[ip..ip] == [] && EncodeLast([]) == [0]
  {
  }

  /** `_last_literals`. */
  method LastLiterals(src: seq<Byte>, dst: array<Byte>, anchor: nat, token: nat, limited: bool) returns (r: nat)
    requires Room(src, dst, limited) && Written(src, dst, anchor, token)
    modifies dst
    ensures r == 0 ==> limited
    ensures r > 0 ==>
      && r <= dst.Length && r <= |src| + |src| / 255 + 2
      && Legal(dst[..r], |src|) && Meaning(dst[..r]) == Some(src)
      && dst[..r] == old(dst[..token]) + EncodeLast(src[anchor..])
  {
    var lastRun := |src| - anchor;
    if limited && token + lastRun + 1 + (lastRun + 240) / 255 > dst.Length { return 0; }
    ghost var block, lits, head := dst[..token], src[anchor..], [16 * Nibble(lastRun)] + ExtraBytes(lastRun);
    assert anchor / 255 + lastRun / 255 <= |src| / 255;
    var op := EmitRunLength(dst, token, lastRun);
    CopyIn(dst, op, src, anchor, lastRun);
    r := op + lastRun;
    assert src[anchor..anchor + lastRun] == lits;
    assert block + head + lits == block + (head + lits);
    assert src == src[..anchor] + lits;
    EncodesLast(block, src[..anchor], |src|, lits);
  }

  lemma ChainStep(c: Job, table: seq<nat>, a: nat)
    requires Ready(c, table) && Earlier(table, a) && 2 <= a <= |c.src|
    ensures a + 12 > |c.src| ==> Chain(c, table, a) == Links([], a, table)
    ensures a + 12 <= |c.src| ==>
      && Key(c, a - 2) < |table| && Key(c, a) < |table|
      && var first := table[Key(c, a - 2) := a - 2];
      var m, now := first[Key(c, a)], first[Key(c, a) := a];
      && Ready(c, now) && Earlier(now, a + 1)
      && if !Hits(c, m, a) then Chain(c, table, a) == Links([], a, now)
         else
           var e := MatchEnd(c.src, a, m, 4);
           && a - m < 65536
           && var l := Chain(c, now, e);
           Chain(c, table, a) == Links(EncodeSequence([], a - m, e - a - 4) + l.block, l.anchor, l.table)
  {
    hide MatchEnd, Key, EncodeSequence;
    if a + 12 <= |c.src| {
      KeyFits(c, a - 2, |table|);
      KeyFits(c, a, |table|);
    }
  }

  /** The links still to come complete those made. */
  ghost predicate Linking(c: Job, before: seq<nat>, from: nat, done: seq<Byte>, table: seq<nat>, a: nat)
  {
    && Ready(c, before) && Earlier(before, from) && 2 <= from <= |c.src|
    && Ready(c, table) && Earlier(table, a) && 2 <= a <= |c.src|
    && var l, rest := Chain(c, before, from), Chain(c, table, a);
    l == Links(done + rest.block, rest.anchor, rest.table)
  }

  /** Matches that follow one another without literals, up to the end or the next search. */
  method MatchChain(src: seq<Byte>, dst: array<Byte>, from: nat, start: nat, tt: TableType, hash: seq<Byte> -> nat,
                    table: array<nat>, limited: bool)
    returns (ok: bool, op: nat, anchor: nat)
    requires Room(src, dst, limited) && FitsTable(src, tt) && Hashes(hash, table.Length)
    requires 2 <= from && Written(src, dst, from, start) && TableBelow(table, from)
    requires limited ==> start + 6 <= dst.Length
    modifies dst, table
    ensures !ok ==> limited
    ensures ok ==> from <= anchor && Written(src, dst, anchor, op)
    ensures ok && anchor <= |src| - MF_LIMIT ==> TableBelow(table, anchor + 1)
    ensures Ready(Job(src, tt, hash), old(table[..])) && Earlier(old(table[..]), from) && from <= |src|
    ensures ok ==>
      var l := Chain(Job(src, tt, hash), old(table[..]), from);
      && anchor == l.anchor && table[..] == l.table && dst[..op] == old(dst[..start]) + l.block
  {
    hide Chain, EncodeSequence, MatchEnd, Key, Hits, Hashes, Candidate, Linking, Ready, Earlier, Written, Room;
    WrittenFits(src, dst, from, start);
    ghost var c, before, head, done: seq<Byte> := Job(src, tt, hash), table[..], dst[..start], [];
    BelowEarlier(src, tt, hash, table, from);
    ok, op, anchor := true, start, from;
    LinkStart(c, before, from);
    assert head + [] == head;
    while anchor <= |src| - MF_LIMIT
      invariant from <= anchor <= |src| && op <= dst.Length && Written(src, dst, anchor, op)
      invariant TableBelow(table, anchor) && (limited ==> op + 6 <= dst.Length)
      invariant Linking(c, before, from, done, table[..], anchor) && dst[..op] == head + done
      decreases |src| - anchor
    {
      ghost var cells, a := table[..], anchor;
      LinkStep(c, before, from, done, cells, a);
      var source := TestNext(src, anchor, tt, hash, table);
      if source.None? { return; }
      ok, op, anchor := ImmediateMatch(src, dst, anchor, op, source.value, limited);
      if !ok { return; }
      WrittenFits(src, dst, anchor, op);
      ghost var link := EncodeSequence([], a - source.value, anchor - a - 4);
      assert (head + done) + link == head + (done + link);
      done := done + link;
    }
    LinkStep(c, before, from, done, table[..], anchor);
  }

  lemma LinkStart(c: Job, table: seq<nat>, from: nat)
    requires Ready(c, table) && Earlier(table, from) && 2 <= from <= |c.src|
    ensures Linking(c, table, from, [], table, from)
  {
    hide Chain;
    assert [] + Chain(c, table, from).block == Chain(c, table, from).block;
  }

  /** The links end, or go on with one more. */
  lemma LinkStep(c: Job, before: seq<nat>, from: nat, done: seq<Byte>, table: seq<nat>, a: nat)
    requires Linking(c, before, from, done, table, a)
    ensures a + 12 > |c.src| ==> Chain(c, before, from) == Links(done, a, table)
    ensures a + 12 <= |c.src| ==>
      && Key(c, a - 2) < |table| && Key(c, a) < |table|
      && var first := table[Key(c, a - 2) := a - 2];
      var m, now := first[Key(c, a)], first[Key(c, a) := a];
      if !Hits(c, m, a) then Chain(c, before, from) == Links(done, a, now)
      else
        var e := MatchEnd(c.src, a, m, 4);
        a - m < 65536 && Linking(c, before, from, done + EncodeSequence([], a - m, e - a - 4), now, e)
  {
    hide Chain, MatchEnd, Key, EncodeSequence, Hits, Ready;
    ChainStep(c, table, a);
    assert done + [] == done;
    if a + 12 <= |c.src| {
      var first := table[Key(c, a - 2) := a - 2];
      var m, now := first[Key(c, a)], first[Key(c, a) := a];
      if Hits(c, m, a) {
        HitBefore(c, m, a);
        var e := MatchEnd(c.src, a, m, 4);
        var link, rest := EncodeSequence([], a - m, e - a - 4), Chain(c, now, e).block;
        assert done + (link + rest) == (done + link) + rest;
      }
    }
  }

  lemma HitBefore(c: Job, m: nat, p: nat)
    requires Hits(c, m, p)
    ensures m < p
  {
  }

  /** How a turn of the main loop ends: at the last literals, with another turn, or out of room. */
  datatype Turn = Ends | Goes | Fails

  /** What is written, and the rest of the block, make up the block. */
  ghost predicate Completes(c: Job, written: seq<Byte>, table: seq<nat>, anchor: nat, t: Turn, whole: seq<Byte>)
  {
    match t
    case Ends => anchor <= |c.src| && whole == written + EncodeLast(c.src[anchor..])
    case Goes => GoesOn(c, table, anchor) && whole == written + Block(c, table, anchor, anchor + 1)
    case Fails => true
  }

  /** The sequence a match leads to, and those right behind it. */
  method Sequences(src: seq<Byte>, dst: array<Byte>, from: nat, start: nat, at: nat, source: nat, tt: TableType,
                   hash: seq<Byte> -> nat, table: array<nat>, limited: bool)
    returns (ok: bool, op: nat, anchor: nat)
    requires Room(src, dst, limited) && FitsTable(src, tt) && Hashes(hash, table.Length)
    requires Written(src, dst, from, start) && from < at && Candidate(src, source, at) && TableBelow(table, at + 1)
    requires Hits(Job(src, tt, hash), source, at)
    modifies dst, table
    ensures !ok ==> limited
    ensures ok ==> at < anchor && Written(src, dst, anchor, op)
    ensures ok && anchor <= |src| - MF_LIMIT ==> TableBelow(table, anchor + 1)
    ensures ok ==>
      var c := Job(src, tt, hash);
      && at + 12 <= |src| && (tt == ByU16 ==> |src| < 65547)
      && var (first, e) := Taken(c, from, at, source);
      && Ready(c, old(table[..])) && Earlier(old(table[..]), e)
      && var l := Chain(c, old(table[..]), e);
      && anchor == l.anchor && table[..] == l.table && dst[..op] == old(dst[..start]) + first + l.block
  {
    hide Encodes, EncodeSequence, EncodeLast, MatchEnd, CaughtUp, Chain, Hits, Hashes, Ready, Earlier, Taken, Room;
    hide Written;
    WrittenFits(src, dst, from, start);
    ok, op, anchor := FirstSequence(src, dst, from, start, at, source, limited);
    if !ok { return; }
    WrittenFits(src, dst, anchor, op);
    TakenIs(Job(src, tt, hash), from, at, source);
    ok, op, anchor := MatchChain(src, dst, anchor, op, tt, hash, table, limited);
  }

  /** One turn of the main loop: a search, the sequence it leads to, and those right behind it. */
  method MainTurn(src: seq<Byte>, dst: array<Byte>, from: nat, start: nat, ip: nat, tt: TableType,
                  hash: seq<Byte> -> nat, table: array<nat>, limited: bool)
    returns (t: Turn, anchor: nat, op: nat)
    requires Room(src, dst, limited) && FitsTable(src, tt) && Hashes(hash, table.Length) && |src| > MF_LIMIT
    requires Written(src, dst, from, start) && TableBelow(table, ip) && from < ip <= |src| - MF_LIMIT + 1
    modifies dst, table
    ensures t.Fails? ==> limited
    ensures !t.Fails? ==> Written(src, dst, anchor, op) && from <= anchor
    ensures t.Goes? ==> ip < anchor <= |src| - MF_LIMIT && TableBelow(table, anchor + 1)
    ensures Ready(Job(src, tt, hash), old(table[..])) && Earlier(old(table[..]), ip)
    ensures
      var c := Job(src, tt, hash);
      !t.Fails? ==>
        Completes(c, dst[..op], table[..], anchor, t, old(dst[..start]) + Block(c, old(table[..]), from, ip))
  {
    hide Encodes, EncodeSequence, EncodeLast, MatchEnd, CaughtUp, Search, Chain, Block, Hits, Candidate, Hashes;
    hide Ready, Earlier, Completes, After, Taken, GoesOn, Room;
    ghost var c, before, head := Job(src, tt, hash), table[..], dst[..start];
    BelowEarlier(src, tt, hash, table, ip);
    var found, ok;
    found := FindMatch(src, ip, tt, hash, table);
    if found.None? {
      NothingFound(c, before, head, from, ip, table[..]);
      return Ends, from, start;
    }
    ok, op, anchor := Sequences(src, dst, from, start, found.value.0, found.value.1, tt, hash, table, limited);
    if !ok { return Fails, from, start; }
    t := if anchor > |src| - MF_LIMIT then Ends else Goes;
    SomethingFound(c, before, head, from, ip);
  }

  lemma TakenIs(c: Job, anchor: nat, p: nat, m: nat)
    requires Hits(c, m, p) && anchor <= p && p + 12 <= |c.src| && (c.tt == ByU16 ==> |c.src| < 65547)
    ensures
      var (q, s) := CaughtUp(c.src, anchor, p, m);
      && q + 9 <= |c.src| && q - s < 65536
      && var e := MatchEnd(c.src, q, s, 4);
      Taken(c, anchor, p, m) == (EncodeSequence(c.src[anchor..q], q - s, e - q - 4), e)
  {
    hide CaughtUp, MatchEnd, EncodeSequence;
  }

  lemma NothingFound(c: Job, table: seq<nat>, head: seq<Byte>, from: nat, ip: nat, now: seq<nat>)
    requires Ready(c, table) && Earlier(table, ip) && from < ip && ip + 11 <= |c.src|
    requires Search(c, table, ip, 0) == None
    ensures Completes(c, head, now, from, Ends, head + Block(c, table, from, ip))
  {
    hide Search, EncodeLast, Chain, Ready, Earlier;
  }

  /** What a turn that finds a match writes, and what is left of the block. */
  lemma SomethingFound(c: Job, table: seq<nat>, head: seq<Byte>, from: nat, ip: nat)
    requires Ready(c, table) && Earlier(table, ip) && from < ip && ip + 11 <= |c.src|
    requires Search(c, table, ip, 0).Some?
    ensures
      var f := Search(c, table, ip, 0).value;
      && Hits(c, f.source, f.at) && (c.tt == ByU16 ==> |c.src| < 65547)
      && var (first, e) := Taken(c, from, f.at, f.source);
      && Ready(c, f.table) && Earlier(f.table, e)
      && var l := Chain(c, f.table, e);
      Completes(c, head + first + l.block, l.table, l.anchor, if l.anchor + 12 > |c.src| then Ends else Goes,
                head + Block(c, table, from, ip))
  {
    hide Search, Taken, Chain, Hits, Hashes;
    var f := Search(c, table, ip, 0).value;
    var (first, e) := Taken(c, from, f.at, f.source);
    FoundReady(c, table, ip);
    AfterIs(c, head, first, Chain(c, f.table, e));
  }

  lemma FoundReady(c: Job, table: seq<nat>, ip: nat)
    requires Ready(c, table) && Earlier(table, ip) && ip + 11 <= |c.src| && Search(c, table, ip, 0).Some?
    ensures Ready(c, Search(c, table, ip, 0).value.table)
  {
    hide Search;
  }

  lemma AfterIs(c: Job, head: seq<Byte>, first: seq<Byte>, l: Links)
    requires l.anchor <= |c.src| && (l.anchor + 12 <= |c.src| ==> GoesOn(c, l.table, l.anchor))
    ensures Completes(c, head + first + l.block, l.table, l.anchor, if l.anchor + 12 > |c.src| then Ends else Goes,
                      head + (first + After(c, l)))
  {
    hide Block, EncodeLast, Ready, Earlier;
    var more := if l.anchor + 12 > |c.src| then EncodeLast(c.src[l.anchor..])
                else Block(c, l.table, l.anchor, l.anchor + 1);
    assert After(c, l) == l.block + more;
    assert head + (first + (l.block + more)) == ((head + first) + l.block) + more;
  }

  /** `LZ4_compress_generic_validated`. */
  method CompressValidated(src: seq<Byte>, dst: array<Byte>, tt: TableType, hash: seq<Byte> -> nat,
                           table: array<nat>, limited: bool)
    returns (r: nat)
    requires |src| >= 1 && Room(src, dst, limited) && (tt == ByU16 ==> |src| < LIMIT_64K)
    requires Hashes(hash, table.Length) && forall i :: 0 <= i < table.Length ==> table[i] == 0
    modifies dst, table
    ensures r == 0 ==> limited
    ensures r > 0 ==>
      && r <= dst.Length && r <= |src| + |src| / 255 + 2
      && Legal(dst[..r], |src|) && Meaning(dst[..r]) == Some(src)
    ensures Ready(Job(src, tt, hash), seq(table.Length, _ => 0)) || |src| <= 12
    ensures r > 0 ==> dst[..r] == Compressed(Job(src, tt, hash), table.Length)
  {
    hide Legal, Meaning, Encodes, EncodeSequence, EncodeLast, Block;
    ghost var c, whole := Job(src, tt, hash), EncodeLast(src);
    var anchor: nat, op: nat := 0, 0;
    assert dst[..0] == [] && src[..0] == [] && src[0..] == src;
    EncodesNothing(|src|);
    if |src| > MF_LIMIT {
      table[Slot(src, 0, tt, hash)] := 0;
      assert table[..] == seq(table.Length, _ => 0);
      BelowEarlier(src, tt, hash, table, 1);
      whole := Block(c, table[..], 0, 1);
      assert [] + whole == whole;
      var t := Goes;
      while t.Goes?
        invariant Written(src, dst, anchor, op) && !t.Fails?
        invariant t.Goes? ==> anchor <= |src| - MF_LIMIT && TableBelow(table, anchor + 1)
        invariant Completes(c, dst[..op], table[..], anchor, t, whole)
        decreases t.Goes?, |src| - anchor
      {
        t, anchor, op := MainTurn(src, dst, anchor, op, anchor + 1, tt, hash, table, limited);
        if t.Fails? { return 0; }
      }
    } else {
      assert [] + EncodeLast(src) == EncodeLast(src);
    }
    r := LastLiterals(src, dst, anchor, op, limited);
  }

  /** `LZ4_compress_fast_extState`, on an output of `dst.Length` bytes. It fails only for a source
      that is too large or an output below the compression bound; otherwise the result is a
      legal block, within that bound, whose meaning is the source. */
  method CompressFast(src: seq<Byte>, dst: array<Byte>, hash16: seq<Byte> -> nat, hash32: seq<Byte> -> nat)
    returns (r: nat)
    requires Hashes(hash16, 8192) && Hashes(hash32, 4096)
    modifies dst
    ensures |src| > 0x7E00_0000 ==> r == 0
    ensures |src| <= 0x7E00_0000 && dst.Length >= |src| + |src| / 255 + 16 ==> r > 0
    ensures r > 0 ==>
      && r <= dst.Length && r <= |src| + |src| / 255 + 2
      && Legal(dst[..r], |src|) && Meaning(dst[..r]) == Some(src) && dst[..r] == Reference(src, hash16, hash32)
  {
    hide LegalFrom, MeaningFrom, Block;
    var limited := dst.Length < CompressBound(|src|);
    if |src| > MAX_INPUT_SIZE { return 0; }
    if |src| == 0 {
      if limited && dst.Length == 0 { return 0; }
      dst[0] := 0;
      assert dst[..1] == [0];
      LastStep([0], 0, 0, 1, [], 0);
      return 1;
    }
    if |src| < LIMIT_64K {
      var table := new nat[8192](_ => 0);
      r := CompressValidated(src, dst, ByU16, hash16, table, limited);
    } else {
      var table := new nat[4096](_ => 0);
      r := CompressValidated(src, dst, ByU32, hash32, table, limited);
    }
  }
}
