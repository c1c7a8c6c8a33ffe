/** `entries.c` as a reader: parsing an entry where it stands, and walking a page entry by entry
    as `trace_checker.c` does. */
module PageWalk {
  import opened Bytes
  import opened Entries
  import opened TraceReader
  import opened Fragment

  /** `coldtrace_entry_parse_type`. */
  function ParseType(buf: seq<Byte>, off: nat): nat
    requires off + 8 <= |buf|
  {
    var base := Base(TypeOf(Word(buf, off)));
    if base < END_TYPE then base else END_TYPE
  }

  /** `coldtrace_entry_parse_ptr`. */
  function ParsePtr(buf: seq<Byte>, off: nat): nat
    requires off + 8 <= |buf|
  {
    PointerOf(Word(buf, off))
  }

  /** The `i`-th word of an entry, if its type has one of the meaning asked for. */
  function Field(buf: seq<Byte>, off: nat, present: bool, i: nat): Option<U64>
    requires present ==> off + 8 * i + 8 <= |buf|
  {
    if present then Some(Word(buf, off + 8 * i)) else None
  }

  /** Where `coldtrace_entry_parse_size` finds a size. */
  predicate HasSize(t: nat)
  {
    t in {ALLOC, READ, WRITE, MMAP, MUNMAP, ATOMIC_READ, ATOMIC_WRITE}
  }

  /** Where `coldtrace_entry_parse_alloc_index` finds an index, if anywhere. */
  function AllocWord(t: nat): Option<nat>
  {
    if t in {ALLOC, MMAP, MUNMAP} then Some(2) else if t == FREE then Some(1) else None
  }

  /** Where `coldtrace_entry_parse_atomic_index` finds an index, if anywhere. */
  function AtomicWord(t: nat): Option<nat>
  {
    if t >= MMAP || t < ATOMIC_READ then None
    else if t in {ATOMIC_READ, ATOMIC_WRITE} then Some(2)
    else Some(1)
  }

  /** `coldtrace_entry_get_size`, with the 32-bit difference of depth and popped. */
  function EntrySize(buf: seq<Byte>, off: nat): nat
    requires off + 8 <= |buf| && off + FixedSize(ParseType(buf, off)) <= |buf|
  {
    var t := ParseType(buf, off);
    var n := FixedSize(t);
    if t != END_TYPE && Stacked(t) then
      var popped, depth := Half(buf, off + n - 8), Half(buf, off + n - 4);
      n + 8 * ((depth - popped) % 0x1_0000_0000)
    else n
  }

  /** An entry as the checker sees it. */
  datatype Walked = Walked(kind: nat, ptr: nat, size: Option<U64>, allocIndex: Option<U64>, atomicIndex: Option<U64>)

  function ParseWalked(buf: seq<Byte>, off: nat): Walked
    requires off + 8 <= |buf| && off + FixedSize(ParseType(buf, off)) <= |buf|
  {
    var t := ParseType(buf, off);
    var a, b := AllocWord(t), AtomicWord(t);
    Walked(t, ParsePtr(buf, off), Field(buf, off, HasSize(t), 1),
           Field(buf, off, a.Some?, if a.Some? then a.value else 0),
           Field(buf, off, b.Some?, if b.Some? then b.value else 0))
  }

  /** What the checker should see of a record. */
  ghost function WalkedOf(r: Record): Walked
  {
    var e := Expect(r);
    Walked(e.kind, e.pointer, e.size, e.allocIndex, e.atomicIndex)
  }

  lemma {:induction false} ReadWordsElement(buf: seq<Byte>, off: nat, n: nat, i: nat)
    requires off + 8 * n <= |buf| && i < n
    ensures Word(buf, off + 8 * i) == ReadWords(buf, off, n)[i]
  {
    hide Word;
    if i < n - 1 { ReadWordsElement(buf, off, n - 1, i); }
  }

  lemma TypeWalks(buf: seq<Byte>, off: nat, r: Record)
    requires off + 8 <= |buf| && Word(buf, off) == HeaderWord(r.kind, r.ptr) && WellFormed(r)
    ensures ParseType(buf, off) == Base(r.kind) < END_TYPE && ParsePtr(buf, off) == r.ptr % 0x1_0000_0000_0000
    ensures FixedSize(ParseType(buf, off)) == FixedSize(r.kind) && (Stacked(Base(r.kind)) <==> WithStack(r.kind))
  {
    hide Word, HeaderWord, TypeOf, PointerOf;
    HeaderParts(r.kind, r.ptr);
  }

  /** The fields of a record are where the parser looks for them. */
  lemma FieldsWalk(buf: seq<Byte>, off: nat, r: Record)
    requires WellFormed(r) && off + FixedSize(r.kind) <= |buf| && FixedSize(r.kind) >= 8
    requires Word(buf, off) == HeaderWord(r.kind, r.ptr)
    requires
      var f := FieldsOf(r.body);
      off + 8 + 8 * |f| <= |buf| && ReadWords(buf, off + 8, |f|) == f
    ensures FixedSize(ParseType(buf, off)) == FixedSize(r.kind) && ParseWalked(buf, off) == WalkedOf(r)
  {
    hide Word, HeaderWord, ReadWords, ParseType, ParsePtr;
    TypeWalks(buf, off, r);
    var f := FieldsOf(r.body);
    if |f| > 0 { ReadWordsElement(buf, off + 8, |f|, 0); }
    if |f| > 1 { ReadWordsElement(buf, off + 8, |f|, 1); }
  }

  /** The size parsed is the size written, and the parsed values are those of the record. */
  lemma {:induction false} EntryWalks(buf: seq<Byte>, off: nat, r: Record, kept: nat)
    requires WellFormed(r) && kept <= |r.stack|
    requires off + |Encode(r, kept)| <= |buf| && buf[off..off + |Encode(r, kept)|] == Encode(r, kept)
    ensures 8 <= FixedSize(r.kind) == FixedSize(ParseType(buf, off)) && off + FixedSize(r.kind) <= |buf|
    ensures EntrySize(buf, off) == |Encode(r, kept)| && ParseWalked(buf, off) == WalkedOf(r)
  {
    hide Word, Half, HeaderWord, ReadWords, ParseType, ParseWalked, WalkedOf, Encode, WellFormed, FieldsOf, FixedSize;
    hide Diff;
    EntryPieces(buf, off, r, kept);
    EncodedSize(r, kept);
    TypeWalks(buf, off, r);
    FieldsWalk(buf, off, r);
    if WithStack(r.kind) {
      StackDepth(r);
      DiffReads(buf, off + 8 + 8 * |FieldsOf(r.body)|, r.stack, kept, r.stack);
    }
  }

  lemma StackDepth(r: Record)
    requires WellFormed(r)
    ensures |r.stack| < 0x1_0000_0000
  {
  }
}
