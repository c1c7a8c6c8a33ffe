/** The block LZ4's fast compressor makes of a source, as a function of the source and the hash: which
    positions are tried, which matches are taken, how far they reach. */
module Lz4Reference {
  import opened Bytes
  import opened Lz4Format

  datatype TableType = ByU16 | ByU32

  /** What is compressed, with which table and which hash. */
  datatype Job = Job(src: seq<Byte>, tt: TableType, hash: seq<Byte> -> nat)

  ghost predicate Hashes(hash: seq<Byte> -> nat, size: nat)
  {
    forall w: seq<Byte> :: hash(w) < size
  }

  /** The source is long enough for a match, and short enough for the table. */
  ghost predicate Ready(c: Job, table: seq<nat>)
  {
    |c.src| > 12 && (c.tt == ByU16 ==> |c.src| < 65547) && Hashes(c.hash, |table|)
  }

  /** All positions in the table are before `p`. */
  ghost predicate Earlier(table: seq<nat>, p: nat)
  {
    forall i :: 0 <= i < |table| ==> table[i] < p
  }

  /** The hash of the four or eight bytes at a position. */
  ghost function Key(c: Job, p: nat): nat
    requires p + 8 <= |c.src|
  {
    c.hash(if c.tt == ByU16 then c.src[p..p + 4] else c.src[p..p + 8])
  }

  lemma KeyFits(c: Job, p: nat, size: nat)
    requires Hashes(c.hash, size) && p + 8 <= |c.src|
    ensures Key(c, p) < size
  {
  }

  /** How far the search strides after `k` positions tried: one further for every 64 of them. */
  ghost function Stride(k: nat): (s: nat)
    ensures s >= 1
  {
    if k == 0 then 1 else 1 + (k - 1) / 64
  }

  /** Position `p` matches at `m`: near enough for the format, and the same four bytes. */
  ghost predicate Hits(c: Job, m: nat, p: nat)
  {
    && m < p && p + 4 <= |c.src| && (c.tt == ByU16 || p - m <= 65535)
    && c.src[m..m + 4] == c.src[p..p + 4]
  }

  datatype Found = Found(at: nat, source: nat, table: seq<nat>)

  /** The search from position `p`, tried after `k` others: the first position that matches at the one its
      table cell holds, unless the next would be within eleven bytes of the end. A position tried takes
      the place of the one in its cell. */
  ghost function Search(c: Job, table: seq<nat>, p: nat, k: nat): (r: Option<Found>)
    requires Ready(c, table) && Earlier(table, p) && p + 11 <= |c.src|
    ensures r.Some? ==>
      var f := r.value;
      && p <= f.at && f.at + 12 <= |c.src| && Hits(c, f.source, f.at)
      && |f.table| == |table| && Earlier(f.table, f.at + 1)
    decreases |c.src| - p
  {
    if p + Stride(k) + 11 > |c.src| then None
    else
      KeyFits(c, p, |table|);
      var h := Key(c, p);
      var now := table[h := p];
      if Hits(c, table[h], p) then Some(Found(p, table[h], now)) else Search(c, now, p + Stride(k), k + 1)
  }

  /** The equal bytes in front of both ends of a match join it. */
  ghost function CaughtUp(src: seq<Byte>, anchor: nat, ip: nat, source: nat): (r: (nat, nat))
    requires anchor <= ip <= |src| && source < ip
    ensures anchor <= r.0 <= ip && r.1 < r.0 && r.0 - r.1 == ip - source
    ensures forall i :: r.0 <= i < ip ==> src[i] == src[i - (ip - source)]
    decreases ip
  {
    if ip > anchor && source > 0 && src[ip - 1] == src[source - 1] then CaughtUp(src, anchor, ip - 1, source - 1)
    else (ip, source)
  }

  /** Where a match ends of which `n` bytes are known: where the bytes differ, but five before the end. */
  ghost function MatchEnd(src: seq<Byte>, ip: nat, source: nat, n: nat): (e: nat)
    requires source < ip && ip + n + 5 <= |src|
    ensures ip + n <= e && e + 5 <= |src|
    ensures forall i :: ip + n <= i < e ==> src[i] == src[i - (ip - source)]
    ensures e + 5 < |src| ==> src[e] != src[e - (ip - source)]
    decreases |src| - n
  {
    if ip + n + 5 < |src| && src[source + n] == src[ip + n] then MatchEnd(src, ip, source, n + 1) else ip + n
  }

  /** That is the only such place. */
  lemma EndUnique(src: seq<Byte>, ip: nat, source: nat, n: nat, e: nat)
    requires source < ip && ip + n <= e && e + 5 <= |src|
    requires forall i :: ip + n <= i < e ==> src[i] == src[i - (ip - source)]
    requires e + 5 < |src| ==> src[e] != src[e - (ip - source)]
    ensures MatchEnd(src, ip, source, n) == e
  {
    hide MatchEnd;
  }

  /** A match that was caught up goes on at least to the four bytes it was found by. */
  lemma EndsBehind(c: Job, anchor: nat, p: nat, m: nat)
    requires Hits(c, m, p) && anchor <= p && p + 9 <= |c.src|
    ensures
      var (q, s) := CaughtUp(c.src, anchor, p, m);
      MatchEnd(c.src, q, s, 4) >= p + 4
  {
    hide MatchEnd, CaughtUp;
    var (q, s) := CaughtUp(c.src, anchor, p, m);
    forall i | q <= i < p + 4 ensures c.src[i] == c.src[i - (p - m)] {
      if i >= p { assert c.src[p..p + 4][i - p] == c.src[m..m + 4][i - p]; }
    }
  }

  /** Matches right behind one another: what they add, where they end, and the table then. */
  datatype Links = Links(block: seq<Byte>, anchor: nat, table: seq<nat>)

  ghost function Chain(c: Job, table: seq<nat>, a: nat): (l: Links)
    requires Ready(c, table) && Earlier(table, a) && 2 <= a <= |c.src|
    ensures a <= l.anchor <= |c.src| && |l.table| == |table|
    ensures l.anchor + 12 <= |c.src| ==> Earlier(l.table, l.anchor + 1)
    decreases |c.src| - a
  {
    if a + 12 > |c.src| then Links([], a, table)
    else
      KeyFits(c, a - 2, |table|);
      KeyFits(c, a, |table|);
      var first := table[Key(c, a - 2) := a - 2];
      var m, now := first[Key(c, a)], first[Key(c, a) := a];
      if !Hits(c, m, a) then Links([], a, now)
      else
        var e := MatchEnd(c.src, a, m, 4);
        var l := Chain(c, now, e);
        Links(EncodeSequence([], a - m, e - a - 4) + l.block, l.anchor, l.table)
  }

  /** The sequence a match leads to, with the literals from `anchor` on, and where its match ends. */
  ghost function Taken(c: Job, anchor: nat, p: nat, m: nat): (r: (seq<Byte>, nat))
    requires Hits(c, m, p) && anchor <= p && p + 12 <= |c.src| && (c.tt == ByU16 ==> |c.src| < 65547)
    ensures p + 4 <= r.1 && r.1 + 5 <= |c.src|
  {
    EndsBehind(c, anchor, p, m);
    var (q, s) := CaughtUp(c.src, anchor, p, m);
    var e := MatchEnd(c.src, q, s, 4);
    (EncodeSequence(c.src[anchor..q], q - s, e - q - 4), e)
  }

  /** The rest of the block, when the source is encoded up to `anchor` and the search goes on at `ip`. */
  ghost function Block(c: Job, table: seq<nat>, anchor: nat, ip: nat): seq<Byte>
    requires Ready(c, table) && Earlier(table, ip) && anchor < ip && ip + 11 <= |c.src|
    decreases |c.src| - anchor, 0
  {
    match Search(c, table, ip, 0)
    case None => EncodeLast(c.src[anchor..])
    case Some(f) =>
      var (first, e) := Taken(c, anchor, f.at, f.source);
      first + After(c, Chain(c, f.table, e))
  }

  /** Another search is due, unless the end is near. */
  ghost predicate GoesOn(c: Job, table: seq<nat>, anchor: nat)
  {
    anchor + 12 <= |c.src| && Ready(c, table) && Earlier(table, anchor + 1)
  }

  /** These links, and what comes behind them. */
  ghost function After(c: Job, l: Links): seq<Byte>
    requires l.anchor <= |c.src| && (l.anchor + 12 <= |c.src| ==> GoesOn(c, l.table, l.anchor))
    decreases |c.src| - l.anchor, 1
  {
    l.block +
    if l.anchor + 12 > |c.src| then EncodeLast(c.src[l.anchor..]) else Block(c, l.table, l.anchor, l.anchor + 1)
  }

  /** The whole block: a source too short for a match is copied. */
  ghost function Compressed(c: Job, size: nat): seq<Byte>
    requires Ready(c, seq(size, _ => 0)) || |c.src| <= 12
  {
    if |c.src| <= 12 then EncodeLast(c.src) else Block(c, seq(size, _ => 0), 0, 1)
  }

  /** With a table of 16 bits for less than 65547 bytes, else of 32 bits. */
  ghost function Reference(src: seq<Byte>, hash16: seq<Byte> -> nat, hash32: seq<Byte> -> nat): seq<Byte>
    requires Hashes(hash16, 8192) && Hashes(hash32, 4096)
  {
    if |src| < 65547 then Compressed(Job(src, ByU16, hash16), 8192) else Compressed(Job(src, ByU32, hash32), 4096)
  }

  // ---------------------------------------------------------------- a run

  /** The same byte over and over, enough of it for a match. */
  ghost predicate IsRun(src: seq<Byte>)
  {
    |src| >= 13 && forall i :: 0 <= i < |src| ==> src[i] == src[0]
  }

  /** A run of one byte becomes a literal, a match at offset 1 and five literals, whatever the hash. */
  lemma RunReference(c: Job, table: seq<nat>)
    requires IsRun(c.src) && Ready(c, table) && forall i :: 0 <= i < |table| ==> table[i] == 0
    ensures Block(c, table, 0, 1) == EncodeSequence([c.src[0]], 1, |c.src| - 10) + EncodeLast(c.src[|c.src| - 5..])
  {
    hide EncodeSequence, EncodeLast, MatchEnd, Key;
    var n := |c.src|;
    KeyFits(c, 1, |table|);
    assert c.src[0..4] == c.src[1..5];
    assert Search(c, table, 1, 0) == Some(Found(1, 0, table[Key(c, 1) := 1]));
    assert CaughtUp(c.src, 0, 1, 0) == (1, 0);
    EndUnique(c.src, 1, 0, 4, n - 5);
    assert c.src[0..1] == [c.src[0]];
    var l := Links([], n - 5, table[Key(c, 1) := 1]);
    assert Chain(c, table[Key(c, 1) := 1], n - 5) == l;
    assert After(c, l) == [] + EncodeLast(c.src[n - 5..]) == EncodeLast(c.src[n - 5..]);
  }
}
