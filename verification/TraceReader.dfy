/** The reader of `trace_dump.py`: from the bytes of a fragment back to entries and stacks. */
module TraceReader {
  import opened Bytes
  import opened Entries

  datatype TraceEntry = TraceEntry(
    kind: nat,
    pointer: nat,
    zeroFlag: bool,
    size: Option<U64>,
    allocIndex: Option<U64>,
    atomicIndex: Option<U64>,
    caller: Option<U64>,
    stackDepth: nat,
    caller1: U64,
    caller2: U64,
    threadStackPtr: Option<U64>,
    threadStackSize: Option<U64>)

  /** A decoded entry and, if it carries one, the whole stack the reader has rebuilt for it. */
  datatype Decoded = Decoded(entry: TraceEntry, stack: seq<U64>)

  function Observed(entry: TraceEntry, stack: seq<U64>): Decoded
  {
    Decoded(entry, if Stacked(entry.kind) then stack else [])
  }

  const VERSION_SIZE := 8

  // ---------------------------------------------------------------- words

  function Word(buf: seq<Byte>, off: nat): U64
    requires off + 8 <= |buf|
  {
    FromLeBound(buf[off..off + 8]);
    WordWidths();
    FromLe(buf[off..off + 8])
  }

  function Half(buf: seq<Byte>, off: nat): nat
    requires off + 4 <= |buf|
  {
    FromLe(buf[off..off + 4])
  }

  lemma {:induction false} FromLeBound(s: seq<Byte>)
    ensures FromLe(s) < Pow256(|s|)
  {
    if s != [] { FromLeBound(s[1..]); }
  }

  function ReadWords(buf: seq<Byte>, off: nat, n: nat): (s: seq<U64>)
    requires off + 8 * n <= |buf|
    ensures |s| == n
  {
    if n == 0 then [] else ReadWords(buf, off, n - 1) + [Word(buf, off + 8 * (n - 1))]
  }

  predicate AllZero(s: seq<Byte>)
  {
    forall i :: 0 <= i < |s| ==> s[i] == 0
  }

  // -------------------------------------------------------------- entries

  /** Number of 64-bit fields the reader unpacks for a type, before any stack diff. */
  function FieldCount(base: nat): nat
  {
    if base == TEST_MARKER then 0
    else if base in {FREE, READ, WRITE, ATOMIC_READ, ATOMIC_WRITE} then 2
    else if base in {ALLOC, MMAP, MUNMAP, THREAD_START} then 3
    else 1
  }

  predicate Stacked(base: nat)
  {
    base in {FREE, ALLOC, READ, WRITE, MMAP, MUNMAP}
  }

  /** The entry built from the unpacked fields. */
  function Named(base: nat, pointer: nat, zero: bool, f: seq<U64>, stack: seq<U64>): TraceEntry
    requires |f| == FieldCount(base)
  {
    var depth := |stack|;
    var c1 := if depth >= 1 then stack[depth - 1] else 0;
    var c2 := if depth >= 2 then stack[depth - 2] else 0;
    if base == TEST_MARKER then
      TraceEntry(base, pointer, false, None, None, None, None, 0, 0, 0, None, None)
    else if base == FREE then
      TraceEntry(base, pointer, zero, None, Some(f[0]), None, Some(f[1]), depth, c1, c2, None, None)
    else if base in {ALLOC, MMAP, MUNMAP} then
      TraceEntry(base, pointer, zero, Some(f[0]), Some(f[1]), None, Some(f[2]), depth, c1, c2, None, None)
    else if base in {READ, WRITE} then
      TraceEntry(base, pointer, zero, Some(f[0]), None, None, Some(f[1]), depth, c1, c2, None, None)
    else if base == THREAD_START then
      TraceEntry(base, pointer, zero, None, None, Some(f[0]), None, 0, 0, 0, Some(f[1]), Some(f[2]))
    else if base in {ATOMIC_READ, ATOMIC_WRITE} then
      TraceEntry(base, pointer, zero, Some(f[0]), None, Some(f[1]), None, 0, 0, 0, None, None)
    else
      TraceEntry(base, pointer, zero, None, None, Some(f[0]), None, 0, 0, 0, None, None)
  }

  /** `_read_stack`: keep `popped` frames, then read up to `depth`. */
  function ReadStack(buf: seq<Byte>, off: nat, stack: seq<U64>, popped: nat, depth: nat): Option<seq<U64>>
  {
    if popped > depth || popped > |stack| || off + 8 * (depth - popped) > |buf| then None
    else Some(stack[..popped] + ReadWords(buf, off, depth - popped))
  }

  datatype Parsed = Entry(entry: TraceEntry, stack: seq<U64>, next: nat) | ZeroTail | Bad

  /** `_read_entry` behind the header and past the check for the tail. */
  function ParseFields(buf: seq<Byte>, off: nat, base: nat, pointer: nat, zero: bool, stack: seq<U64>): (p: Parsed)
    ensures p.Entry? ==> off <= p.next <= |buf|
  {
    var end := off + 8 * FieldCount(base);
    if end + (if Stacked(base) then 8 else 0) > |buf| then Bad
    else
      var f := ReadWords(buf, off, FieldCount(base));
      if !Stacked(base) then Entry(Named(base, pointer, zero, f, []), stack, end)
      else
        var popped, depth := Half(buf, end), Half(buf, end + 4);
        match ReadStack(buf, end + 8, stack, popped, depth)
        case None => Bad
        case Some(st) => Entry(Named(base, pointer, zero, f, st), st, end + 8 + 8 * (depth - popped))
  }

  /** The first bytes of a free entry, as far as the file goes, are all zero. */
  predicate LooksLikeTail(buf: seq<Byte>, off: nat)
    requires off + 8 <= |buf|
  {
    Word(buf, off) == 0 && AllZero(buf[off + 8..if off + 32 <= |buf| then off + 32 else |buf|])
  }

  /** One turn of `_read_file`. */
  function ParseEntry(buf: seq<Byte>, off: nat, stack: seq<U64>): (p: Parsed)
    requires off < |buf|
    ensures p.Entry? ==> off < p.next <= |buf|
  {
    if off + 8 > |buf| then
      if AllZero(buf[off..]) then ZeroTail else Bad
    else
      var typed := Word(buf, off);
      var base := Base(TypeOf(typed));
      if base >= END_TYPE then Bad
      else if base == FREE && LooksLikeTail(buf, off) then ZeroTail
      else ParseFields(buf, off + 8, base, PointerOf(typed), TypeOf(typed) >= ZERO_FLAG, stack)
  }

  /** What reading to the end of a fragment yields: the entries, the stack left, and whether
      the fragment was free of format errors. */
  datatype Reading = Reading(entries: seq<Decoded>, stack: seq<U64>, ok: bool)

  function ReadFrom(buf: seq<Byte>, off: nat, stack: seq<U64>): Reading
    decreases |buf| - off
  {
    if off >= |buf| then Reading([], stack, true)
    else match ParseEntry(buf, off, stack)
      case ZeroTail => Reading([], stack, true)
      case Bad => Reading([], stack, false)
      case Entry(e, st, next) =>
        var rest := ReadFrom(buf, next, st);
        Reading([Observed(e, st)] + rest.entries, rest.stack, rest.ok)
  }
}
