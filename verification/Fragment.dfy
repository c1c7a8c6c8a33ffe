/** Fragments: entries laid out one behind the other with delta-encoded stacks, and the proof
    that reading them back restores entries and stacks from any earlier state of the reader. */
module Fragment {
  import opened Bytes
  import opened Entries
  import opened TraceReader

  /** A record and the number of frames its stack diff keeps. */
  datatype Placed = Placed(r: Record, kept: nat)

  ghost predicate PlacedOk(p: Placed)
  {
    WellFormed(p.r) && p.kept <= |p.r.stack|
  }

  ghost predicate AllPlaced(ps: seq<Placed>)
  {
    forall i :: 0 <= i < |ps| ==> PlacedOk(ps[i])
  }

  /** The bytes of the first `n` entries of a fragment. */
  ghost function LayoutTo(ps: seq<Placed>, n: nat): seq<Byte>
    requires AllPlaced(ps) && n <= |ps|
  {
    if n == 0 then [] else LayoutTo(ps, n - 1) + Encode(ps[n - 1].r, ps[n - 1].kept)
  }

  /** The bytes of a fragment behind its version header. */
  ghost function Layout(ps: seq<Placed>): seq<Byte>
    requires AllPlaced(ps)
  {
    LayoutTo(ps, |ps|)
  }

  /** The stack of the last of the first `n` entries that carried one. */
  ghost function Prev(ps: seq<Placed>, n: nat): Option<seq<U64>>
    requires n <= |ps|
  {
    if n == 0 then None
    else if WithStack(ps[n - 1].r.kind) then Some(ps[n - 1].r.stack)
    else Prev(ps, n - 1)
  }

  /** `kept` frames of the earlier stack are the bottom frames of `stack`; the first stack in a
      fragment keeps none. */
  ghost predicate Linked(prev: Option<seq<U64>>, stack: seq<U64>, kept: nat)
  {
    match prev
    case None => kept == 0
    case Some(p) => kept <= |p| && kept <= |stack| && p[..kept] == stack[..kept]
  }

  ghost predicate LinkedAt(ps: seq<Placed>, i: nat)
    requires i < |ps|
  {
    WithStack(ps[i].r.kind) ==> Linked(Prev(ps, i), ps[i].r.stack, ps[i].kept)
  }

  ghost predicate Chain(ps: seq<Placed>)
  {
    AllPlaced(ps) && forall i :: 0 <= i < |ps| ==> LinkedAt(ps, i)
  }

  /** The records of a fragment. */
  ghost function Records(ps: seq<Placed>): seq<Record>
  {
    seq(|ps|, i requires 0 <= i < |ps| => ps[i].r)
  }

  // ------------------------------------------------------- what is expected

  /** A record the reader cannot tell from the zero-filled tail of a fragment. */
  ghost predicate ZeroFree(r: Record)
  {
    && r.kind == FREE && r.ptr % 0x1_0000_0000_0000 == 0
    && r.body == FreeBody(0, 0) && r.stack == []
  }

  ghost function FromTop(stack: seq<U64>, k: nat): U64
  {
    if 1 <= k <= |stack| then stack[|stack| - k] else 0
  }

  /** The entry a reader should see for a record: the pointer loses its upper 16 bits, a test
      marker its zero flag. */
  ghost function Expect(r: Record): TraceEntry
  {
    var base, ptr, zero := Base(r.kind), r.ptr % 0x1_0000_0000_0000, r.kind >= ZERO_FLAG;
    var depth, c1, c2 := |r.stack|, FromTop(r.stack, 1), FromTop(r.stack, 2);
    match r.body
    case FreeBody(ai, caller) =>
      TraceEntry(base, ptr, zero, None, Some(ai), None, Some(caller), depth, c1, c2, None, None)
    case AllocBody(sz, ai, caller) =>
      TraceEntry(base, ptr, zero, Some(sz), Some(ai), None, Some(caller), depth, c1, c2, None, None)
    case AccessBody(sz, caller) =>
      TraceEntry(base, ptr, zero, Some(sz), None, None, Some(caller), depth, c1, c2, None, None)
    case AtomicAccessBody(sz, idx) => TraceEntry(base, ptr, zero, Some(sz), None, Some(idx), None, 0, 0, 0, None, None)
    case ThreadStartBody(idx, sp, sz) =>
      TraceEntry(base, ptr, zero, None, None, Some(idx), None, 0, 0, 0, Some(sp), Some(sz))
    case AtomicBody(idx) => TraceEntry(base, ptr, zero, None, None, Some(idx), None, 0, 0, 0, None, None)
    case MarkerBody => TraceEntry(base, ptr, false, None, None, None, None, 0, 0, 0, None, None)
  }

  /** The reader's stack after `n` entries, having started with `st`. */
  ghost function StackAfter(ps: seq<Placed>, n: nat, st: seq<U64>): seq<U64>
    requires n <= |ps|
  {
    match Prev(ps, n)
    case None => st
    case Some(s) => s
  }

  /** A record as a reader should see it, with its whole stack if its type carries one. */
  ghost function Seen(r: Record): Decoded
  {
    Decoded(Expect(r), if WithStack(r.kind) then r.stack else [])
  }

  /** Everything from entry `i` on, up to a record that looks like the tail. */
  ghost function SeenFrom(ps: seq<Placed>, i: nat): seq<Decoded>
    requires i <= |ps|
    decreases |ps| - i
  {
    if i == |ps| || ZeroFree(ps[i].r) then []
    else [Seen(ps[i].r)] + SeenFrom(ps, i + 1)
  }

  // --------------------------------------------------------- reading words

  lemma ReadWord(buf: seq<Byte>, off: nat, v: U64)
    requires off + 8 <= |buf| && buf[off..off + 8] == Le(v, 8)
    ensures Word(buf, off) == v
  {
    WordWidths();
    FromLeInverts(v, 8);
  }

  lemma ReadHalf(buf: seq<Byte>, off: nat, v: nat)
    requires off + 4 <= |buf| && buf[off..off + 4] == Le(v, 4) && v < 0x1_0000_0000
    ensures Half(buf, off) == v
  {
    WordWidths();
    FromLeInverts(v, 4);
  }

  lemma WordsStep(s: seq<U64>, n: nat)
    requires |s| == n + 1
    ensures Words(s) == Words(s[..n]) + Le(s[n], 8)
  {
    hide Le;
  }

  lemma WordsLast(s: seq<U64>, n: nat)
    requires |s| == n + 1
    ensures Words(s)[0..8 * n] == Words(s[..n]) && Words(s)[8 * n..8 * n + 8] == Le(s[n], 8)
  {
    hide Le, Words;
    WordsStep(s, n);
  }

  lemma {:induction false} ReadWordsAt(buf: seq<Byte>, off: nat, s: seq<U64>)
    requires off + 8 * |s| <= |buf| && buf[off..off + 8 * |s|] == Words(s)
    ensures ReadWords(buf, off, |s|) == s
    decreases |s|
  {
    hide Words, Le, Word;
    if s != [] {
      var n := |s| - 1;
      WordsLast(s, n);
      Part(buf, off, Words(s), 0, 8 * n);
      Part(buf, off, Words(s), 8 * n, 8 * n + 8);
      ReadWordsAt(buf, off, s[..n]);
      ReadWord(buf, off + 8 * n, s[n]);
      assert s == s[..n] + [s[n]];
    }
  }

  // --------------------------------------------------------- one entry

  /** Where the pieces of an encoded entry stand. */
  lemma {:induction false} EntryPieces(buf: seq<Byte>, off: nat, r: Record, kept: nat)
    requires WellFormed(r) && kept <= |r.stack|
    requires off + |Encode(r, kept)| <= |buf| && buf[off..off + |Encode(r, kept)|] == Encode(r, kept)
    ensures
      var f := FieldsOf(r.body);
      var end := off + 8 + 8 * |f|;
      && end + |Tail(r, kept)| == off + |Encode(r, kept)|
      && Word(buf, off) == HeaderWord(r.kind, r.ptr)
      && ReadWords(buf, off + 8, |f|) == f
      && buf[end..end + |Tail(r, kept)|] == Tail(r, kept)
  {
    hide Words, Le, HeaderWord, FieldsOf, Tail;
    var f := FieldsOf(r.body);
    var e := Encode(r, kept);
    var end := 8 + 8 * |f|;
    assert e[0..8] == Le(HeaderWord(r.kind, r.ptr), 8) && e[8..end] == Words(f) && e[end..|e|] == Tail(r, kept);
    Part(buf, off, e, 0, 8);
    Part(buf, off, e, 8, end);
    Part(buf, off, e, end, |e|);
    ReadWord(buf, off, HeaderWord(r.kind, r.ptr));
    ReadWordsAt(buf, off + 8, f);
  }

  lemma HeaderBytes(kind: Byte, ptr: U64)
    ensures
      var e := Le(HeaderWord(kind, ptr), 8);
      e[0] == kind && e[1] == 0 && FromLe(e[2..8]) == ptr % 0x1_0000_0000_0000
  {
    var p, w := ptr % 0x1_0000_0000_0000, HeaderWord(kind, ptr);
    var q := p * 256;
    assert w == q * 256 + kind && (q * 256 + kind) / 256 == q && (q * 256 + kind) % 256 == kind;
    assert q / 256 == p && q % 256 == 0;
    assert Le(w, 8) == [kind] + Le(q, 7) && Le(q, 7) == [0] + Le(p, 6);
    assert Le(w, 8)[2..8] == Le(p, 6);
    assert Pow256(2) == 0x1_0000 && Pow256(4) == 0x1_0000_0000 && Pow256(6) == 0x1_0000_0000_0000;
    FromLeInverts(p, 6);
  }

  lemma {:induction false} WordAt(buf: seq<Byte>, off: nat, n: nat, i: nat)
    requires off + 8 * n <= |buf| && i < n
    ensures ReadWords(buf, off, n)[i] == FromLe(buf[off + 8 * i..off + 8 * i + 8])
  {
    if i < n - 1 { WordAt(buf, off, n - 1, i); }
  }

  /** An entry byte by byte: type, a zero, 48 bits of pointer, the fields of its structure and, for a stack,
      the number of frames kept, the depth, and the frames above those kept; all little-endian. */
  lemma EntryLayout(r: Record, kept: nat, i: nat)
    requires WellFormed(r) && kept <= |r.stack|
    ensures
      var e, f := Encode(r, kept), FieldsOf(r.body);
      var n := 8 + 8 * |f|;
      && |e| == n + (if WithStack(r.kind) then 8 + 8 * (|r.stack| - kept) else 0)
      && e[0] == r.kind && e[1] == 0 && FromLe(e[2..8]) == r.ptr % 0x1_0000_0000_0000
      && (i < |f| ==> FromLe(e[8 + 8 * i..16 + 8 * i]) == f[i])
      && (WithStack(r.kind) ==>
            && FromLe(e[n..n + 4]) == kept && FromLe(e[n + 4..n + 8]) == |r.stack|
            && (kept + i < |r.stack| ==> FromLe(e[n + 8 + 8 * i..n + 16 + 8 * i]) == r.stack[kept + i]))
  {
    hide Words, Le, FieldsOf, HeaderWord, WithStack, FromLe, ReadWords;
    var e, f := Encode(r, kept), FieldsOf(r.body);
    var n := 8 + 8 * |f|;
    EncodedSize(r, kept);
    assert e[0..|e|] == e;
    EntryPieces(e, 0, r, kept);
    HeaderBytes(r.kind, r.ptr);
    assert e[0..8] == Le(HeaderWord(r.kind, r.ptr), 8);
    assert e[2..8] == e[0..8][2..8] && e[0] == e[0..8][0] && e[1] == e[0..8][1];
    if i < |f| { WordAt(e, 8, |f|, i); }
    if WithStack(r.kind) {
      DiffReads(e, n, r.stack, kept, r.stack);
      assert r.stack == r.stack[..kept] + r.stack[kept..];
      if kept + i < |r.stack| { WordAt(e, n + 8, |r.stack| - kept, i); }
    }
  }

  /** The stack diff restores the whole stack on top of the frames it keeps. */
  lemma {:induction false} DiffReads(buf: seq<Byte>, off: nat, stack: seq<U64>, kept: nat, st: seq<U64>)
    requires kept <= |stack| < 0x1_0000_0000 && kept <= |st| && st[..kept] == stack[..kept]
    requires off + |Diff(kept, stack)| <= |buf| && buf[off..off + |Diff(kept, stack)|] == Diff(kept, stack)
    ensures Half(buf, off) == kept && Half(buf, off + 4) == |stack|
    ensures ReadStack(buf, off + 8, st, kept, |stack|) == Some(stack)
  {
    hide Words, Le;
    var d := Diff(kept, stack);
    assert d[0..4] == Le(kept, 4) && d[4..8] == Le(|stack|, 4) && d[8..|d|] == Words(stack[kept..]);
    Part(buf, off, d, 0, 4);
    Part(buf, off, d, 4, 8);
    Part(buf, off, d, 8, |d|);
    ReadHalf(buf, off, kept);
    ReadHalf(buf, off + 4, |stack|);
    ReadWordsAt(buf, off + 8, stack[kept..]);
    assert stack == stack[..kept] + stack[kept..];
  }

  lemma {:induction false} ZeroBytes(v: nat, n: nat)
    requires v < Pow256(n)
    ensures AllZero(Le(v, n)) <==> v == 0
  {
    if n > 0 {
      ZeroBytes(v / 256, n - 1);
      ZeroJoin([v % 256], Le(v / 256, n - 1));
      assert [v % 256][0] == v % 256;
    }
  }

  lemma ZeroJoin(a: seq<Byte>, b: seq<Byte>)
    ensures AllZero(a + b) <==> AllZero(a) && AllZero(b)
  {
    if AllZero(a + b) {
      forall i | 0 <= i < |a| ensures a[i] == 0 { assert (a + b)[i] == 0; }
      forall i | 0 <= i < |b| ensures b[i] == 0 { assert (a + b)[|a| + i] == 0; }
    }
  }

  /** The bytes of a free entry behind its header. */
  lemma FreeBytes(r: Record, kept: nat)
    requires WellFormed(r) && kept <= |r.stack| && Base(r.kind) == FREE
    ensures
      var z := (Le(r.body.allocIndex, 8) + Le(r.body.caller, 8)) + (Le(kept, 4) + Le(|r.stack|, 4));
      |z| == 24 && 32 <= |Encode(r, kept)| && Encode(r, kept)[8..32] == z
  {
    hide Le;
    var ai, caller := r.body.allocIndex, r.body.caller;
    assert Words([ai, caller]) == Le(ai, 8) + Le(caller, 8) by {
      assert [ai, caller][..1] == [ai] && [ai][..0] == [] && Words([]) == [];
      assert Words([ai]) == Le(ai, 8);
    }
  }

  /** The bytes the reader checks of a free entry are zero exactly for a `ZeroFree` record. */
  lemma {:induction false} ZeroFreeBytes(buf: seq<Byte>, off: nat, r: Record, kept: nat)
    requires WellFormed(r) && kept <= |r.stack| && Base(r.kind) == FREE
    requires off + |Encode(r, kept)| <= |buf| && buf[off..off + |Encode(r, kept)|] == Encode(r, kept)
    ensures off + 32 <= |buf|
    ensures LooksLikeTail(buf, off) <==> ZeroFree(r)
  {
    hide Le, Encode, Words;
    EntryPieces(buf, off, r, kept);
    var ai, caller, depth := r.body.allocIndex, r.body.caller, |r.stack|;
    HeaderParts(r.kind, r.ptr);
    WordWidths();
    FreeBytes(r, kept);
    Part(buf, off, Encode(r, kept), 8, 32);
    ZeroJoin(Le(ai, 8) + Le(caller, 8), Le(kept, 4) + Le(depth, 4));
    ZeroJoin(Le(ai, 8), Le(caller, 8));
    ZeroJoin(Le(kept, 4), Le(depth, 4));
    ZeroBytes(ai, 8);
    ZeroBytes(caller, 8);
    ZeroBytes(kept, 4);
    ZeroBytes(depth, 4);
  }

  /** What the reader builds from the fields of a record is what the record should look like. */
  lemma NamedIsExpected(r: Record)
    requires WellFormed(r)
    ensures Base(r.kind) < END_TYPE && |FieldsOf(r.body)| == FieldCount(Base(r.kind))
    ensures Stacked(Base(r.kind)) <==> WithStack(r.kind)
    ensures
      Named(Base(r.kind), r.ptr % 0x1_0000_0000_0000, r.kind >= ZERO_FLAG, FieldsOf(r.body),
            if WithStack(r.kind) then r.stack else []) == Expect(r)
  {
  }

  lemma {:induction false} ParseStacked(buf: seq<Byte>, off: nat, base: nat, pointer: nat, zero: bool, st: seq<U64>,
                                        f: seq<U64>, kept: nat, stack: seq<U64>)
    requires Stacked(base) && |f| == FieldCount(base) && kept <= |stack| && off + 8 * |f| + 8 <= |buf|
    requires ReadWords(buf, off, |f|) == f
    requires Half(buf, off + 8 * |f|) == kept && Half(buf, off + 8 * |f| + 4) == |stack|
    requires ReadStack(buf, off + 8 * |f| + 8, st, kept, |stack|) == Some(stack)
    ensures ParseFields(buf, off, base, pointer, zero, st)
      == Entry(Named(base, pointer, zero, f, stack), stack, off + 8 * |f| + 8 + 8 * (|stack| - kept))
  {
  }

  lemma {:induction false} ParsePlain(buf: seq<Byte>, off: nat, base: nat, pointer: nat, zero: bool, st: seq<U64>,
                                      f: seq<U64>)
    requires !Stacked(base) && |f| == FieldCount(base) && off + 8 * |f| <= |buf| && ReadWords(buf, off, |f|) == f
    ensures ParseFields(buf, off, base, pointer, zero, st)
      == Entry(Named(base, pointer, zero, f, []), st, off + 8 * |f|)
  {
  }

  lemma {:induction false} FieldsRead(buf: seq<Byte>, off: nat, r: Record, kept: nat, st: seq<U64>)
    requires WellFormed(r) && kept <= |r.stack|
    requires off + |Encode(r, kept)| <= |buf| && buf[off..off + |Encode(r, kept)|] == Encode(r, kept)
    requires WithStack(r.kind) ==> kept <= |st| && st[..kept] == r.stack[..kept]
    ensures
      ParseFields(buf, off + 8, Base(r.kind), r.ptr % 0x1_0000_0000_0000, r.kind >= ZERO_FLAG, st)
      == Entry(Expect(r), if WithStack(r.kind) then r.stack else st, off + |Encode(r, kept)|)
  {
    hide Encode, Words, Le, Word, Half, ReadWords, ReadStack, HeaderWord, FieldsOf, Named, Expect, ParseFields, Stacked;
    hide FieldCount;
    EntryPieces(buf, off, r, kept);
    NamedIsExpected(r);
    var f, base, ptr, zero := FieldsOf(r.body), Base(r.kind), r.ptr % 0x1_0000_0000_0000, r.kind >= ZERO_FLAG;
    if WithStack(r.kind) {
      DiffReads(buf, off + 8 + 8 * |f|, r.stack, kept, st);
      ParseStacked(buf, off + 8, base, ptr, zero, st, f, kept, r.stack);
    } else {
      ParsePlain(buf, off + 8, base, ptr, zero, st, f);
    }
  }

  /** Reading one entry back, wherever it stands, with any stack it links to. */
  lemma {:induction false} EntryReads(buf: seq<Byte>, off: nat, r: Record, kept: nat, st: seq<U64>)
    requires WellFormed(r) && kept <= |r.stack|
    requires off + |Encode(r, kept)| <= |buf| && buf[off..off + |Encode(r, kept)|] == Encode(r, kept)
    requires WithStack(r.kind) ==> kept <= |st| && st[..kept] == r.stack[..kept]
    ensures off < |buf|
    ensures ParseEntry(buf, off, st) ==
      if ZeroFree(r) then ZeroTail
      else Entry(Expect(r), if WithStack(r.kind) then r.stack else st, off + |Encode(r, kept)|)
  {
    EntryPieces(buf, off, r, kept);
    HeaderParts(r.kind, r.ptr);
    NamedIsExpected(r);
    if Base(r.kind) == FREE { ZeroFreeBytes(buf, off, r, kept); }
    FieldsRead(buf, off, r, kept, st);
  }

  // --------------------------------------------------------- a whole fragment

  lemma {:induction false} LayoutPrefix(ps: seq<Placed>, i: nat, n: nat)
    requires AllPlaced(ps) && i <= n <= |ps|
    ensures |LayoutTo(ps, i)| <= |LayoutTo(ps, n)| && LayoutTo(ps, n)[..|LayoutTo(ps, i)|] == LayoutTo(ps, i)
    decreases n
  {
    hide Encode;
    if i < n {
      LayoutPrefix(ps, i, n - 1);
      PrefixStays(LayoutTo(ps, n - 1), Encode(ps[n - 1].r, ps[n - 1].kept), |LayoutTo(ps, i)|);
    }
  }

  lemma PrefixStays(a: seq<Byte>, e: seq<Byte>, k: nat)
    requires k <= |a|
    ensures (a + e)[..k] == a[..k]
  {
  }

  lemma SliceBehind(all: seq<Byte>, a: seq<Byte>, e: seq<Byte>)
    requires |a| + |e| <= |all| && all[..|a| + |e|] == a + e
    ensures all[|a|..|a| + |e|] == e
  {
    assert all[|a|..|a| + |e|] == all[..|a| + |e|][|a|..];
  }

  ghost predicate Holds(buf: seq<Byte>, ps: seq<Placed>)
  {
    AllPlaced(ps) && |buf| == VERSION_SIZE + |Layout(ps)| && buf[VERSION_SIZE..] == Layout(ps)
  }

  /** Where entry `i` of a fragment starts. */
  ghost function Offset(ps: seq<Placed>, i: nat): nat
    requires AllPlaced(ps) && i <= |ps|
  {
    VERSION_SIZE + |LayoutTo(ps, i)|
  }

  lemma {:induction false} EntryStands(buf: seq<Byte>, ps: seq<Placed>, i: nat)
    requires Holds(buf, ps) && i < |ps|
    ensures
      var e := Encode(ps[i].r, ps[i].kept);
      && Offset(ps, i) + |e| == Offset(ps, i + 1) <= |buf|
      && buf[Offset(ps, i)..Offset(ps, i) + |e|] == e
  {
    hide Encode;
    var e, a := Encode(ps[i].r, ps[i].kept), LayoutTo(ps, i);
    LayoutPrefix(ps, i + 1, |ps|);
    SliceBehind(Layout(ps), a, e);
    Part(buf, VERSION_SIZE, Layout(ps), |a|, |a| + |e|);
  }

  lemma {:induction false} LinkHolds(ps: seq<Placed>, i: nat, st: seq<U64>)
    requires Chain(ps) && i < |ps| && WithStack(ps[i].r.kind)
    ensures
      var before := StackAfter(ps, i, st);
      ps[i].kept <= |before| && before[..ps[i].kept] == ps[i].r.stack[..ps[i].kept]
  {
    assert LinkedAt(ps, i);
  }

  /** Reading entry `i` of a fragment. */
  lemma {:induction false} FragmentEntry(buf: seq<Byte>, ps: seq<Placed>, i: nat, st: seq<U64>)
    requires Chain(ps) && i < |ps| && Holds(buf, ps)
    ensures Offset(ps, i) < |buf|
    ensures ParseEntry(buf, Offset(ps, i), StackAfter(ps, i, st)) ==
      if ZeroFree(ps[i].r) then ZeroTail
      else Entry(Expect(ps[i].r), StackAfter(ps, i + 1, st), Offset(ps, i + 1))
  {
    hide ParseEntry, Encode, Expect, ZeroFree;
    EntryStands(buf, ps, i);
    if WithStack(ps[i].r.kind) { LinkHolds(ps, i, st); }
    assert PlacedOk(ps[i]);
    EntryReads(buf, Offset(ps, i), ps[i].r, ps[i].kept, StackAfter(ps, i, st));
  }

  lemma {:induction false} ReadStep(buf: seq<Byte>, off: nat, st: seq<U64>)
    requires off < |buf| && !ParseEntry(buf, off, st).Bad?
    ensures
      var p, r := ParseEntry(buf, off, st), ReadFrom(buf, off, st);
      if p.ZeroTail? then r == Reading([], st, true)
      else
        var rest := ReadFrom(buf, p.next, p.stack);
        r == Reading([Observed(p.entry, p.stack)] + rest.entries, rest.stack, rest.ok)
  {
  }

  lemma SeenIsObserved(ps: seq<Placed>, i: nat, st: seq<U64>)
    requires i < |ps| && PlacedOk(ps[i])
    ensures Observed(Expect(ps[i].r), StackAfter(ps, i + 1, st)) == Seen(ps[i].r)
  {
    NamedIsExpected(ps[i].r);
  }

  /** From entry `i` on, a fragment reads back as its entries. */
  ghost predicate ReadsFrom(buf: seq<Byte>, ps: seq<Placed>, i: nat, st: seq<U64>)
    requires AllPlaced(ps) && i <= |ps|
  {
    var r := ReadFrom(buf, Offset(ps, i), StackAfter(ps, i, st));
    r.entries == SeenFrom(ps, i) && r.ok
  }

  lemma {:induction false} FragmentEnd(buf: seq<Byte>, ps: seq<Placed>, st: seq<U64>)
    requires Holds(buf, ps)
    ensures ReadsFrom(buf, ps, |ps|, st)
  {
  }

  lemma {:induction false} FragmentStep(buf: seq<Byte>, ps: seq<Placed>, i: nat, st: seq<U64>)
    requires Chain(ps) && i < |ps| && Holds(buf, ps) && ReadsFrom(buf, ps, i + 1, st)
    ensures ReadsFrom(buf, ps, i, st)
  {
    FragmentEntry(buf, ps, i, st);
    assert PlacedOk(ps[i]);
    SeenIsObserved(ps, i, st);
    ReadStep(buf, Offset(ps, i), StackAfter(ps, i, st));
  }

  lemma {:induction false} FragmentReadsFrom(buf: seq<Byte>, ps: seq<Placed>, i: nat, st: seq<U64>)
    requires Chain(ps) && i <= |ps| && Holds(buf, ps)
    ensures ReadsFrom(buf, ps, i, st)
    decreases |ps| - i
  {
    hide ReadsFrom;
    if i == |ps| {
      FragmentEnd(buf, ps, st);
    } else {
      FragmentReadsFrom(buf, ps, i + 1, st);
      FragmentStep(buf, ps, i, st);
    }
  }

  /** Every fragment stands alone: it reads without error to the same entries and, for each
      entry that carries a stack, to the whole stack of that record, from any reader state. */
  lemma {:induction false} FragmentReads(version: seq<Byte>, ps: seq<Placed>, st: seq<U64>)
    requires |version| == VERSION_SIZE && Chain(ps)
    ensures
      var r := ReadFrom(version + Layout(ps), VERSION_SIZE, st);
      r.entries == SeenFrom(ps, 0) && r.ok
  {
    FragmentReadsFrom(version + Layout(ps), ps, 0, st);
  }
}
