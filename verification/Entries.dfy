/** Trace entries: their types, sizes and byte layout. */
module Entries {
  import opened Bytes

  type U64 = x: int | 0 <= x < 0x1_0000_0000_0000_0000

  // ------------------------------------------------------ little-endian words

  function Le(v: nat, n: nat): (s: seq<Byte>)
    ensures |s| == n
  {
    if n == 0 then [] else [v % 256] + Le(v / 256, n - 1)
  }

  function FromLe(s: seq<Byte>): nat
  {
    if s == [] then 0 else s[0] as int + 256 * FromLe(s[1..])
  }

  function Pow256(n: nat): nat
  {
    if n == 0 then 1 else 256 * Pow256(n - 1)
  }

  lemma {:induction false} FromLeInverts(v: nat, n: nat)
    requires v < Pow256(n)
    ensures FromLe(Le(v, n)) == v
  {
    if n > 0 {
      FromLeInverts(v / 256, n - 1);
      assert Le(v, n)[1..] == Le(v / 256, n - 1);
    }
  }

  lemma WordWidths()
    ensures Pow256(4) == 0x1_0000_0000 && Pow256(8) == 0x1_0000_0000_0000_0000
  {
    assert Pow256(2) == 0x1_0000 && Pow256(4) == 0x1_0000_0000;
    assert Pow256(6) == 0x1_0000_0000_0000;
  }

  // ---------------------------------------------------------------- types

  const ZERO_FLAG := 128
  const END_TYPE := 25
  const FREE := 0
  const ALLOC := 1
  const READ := 2
  const WRITE := 3
  const ATOMIC_READ := 4
  const ATOMIC_WRITE := 5
  const THREAD_START := 9
  const MMAP := 22
  const MUNMAP := 23
  const TEST_MARKER := 24

  /** The type without its zero flag. */
  function Base(t: Byte): nat
  {
    t % ZERO_FLAG
  }

  predicate ValidType(t: Byte)
  {
    Base(t) < END_TYPE
  }

  /** `with_stack_`. */
  predicate WithStack(t: Byte)
  {
    Base(t) in {FREE, ALLOC, MMAP, MUNMAP, READ, WRITE}
  }

  /** `coldtrace_entry_fixed_size`: the sizes of the entry structures; 0 for an unknown type. */
  function FixedSize(t: Byte): nat
  {
    var b := Base(t);
    if b >= END_TYPE then 0
    else if b == FREE || b == READ || b == WRITE || b == THREAD_START then 32
    else if b == ALLOC || b == MMAP || b == MUNMAP then 40
    else if b == ATOMIC_READ || b == ATOMIC_WRITE then 24
    else if b == TEST_MARKER then 8
    else 16
  }

  /** The types in numbers: 25 of them, beside a flag of value 128; memory accesses carry a stack. */
  lemma TypeTable(t: Byte)
    ensures ValidType(t) <==> t % 128 <= 24
    ensures WithStack(t) <==> t % 128 in {0, 1, 2, 3, 22, 23}
    ensures FixedSize(t) ==
      var n := t % 128;
      if n > 24 then 0
      else if n == 24 then 8
      else if n == 4 || n == 5 then 24
      else if n == 0 || n == 2 || n == 3 || n == 9 then 32
      else if n == 1 || n == 22 || n == 23 then 40
      else 16
  {
  }

  // ---------------------------------------------------------------- layout

  /** `coldtrace_make_entry_header`: 48 bits of pointer, padding, type. */
  function HeaderWord(t: Byte, ptr: U64): U64
  {
    (ptr % 0x1_0000_0000_0000) * 0x1_0000 + t
  }

  /** The reader's view of a header word. */
  function TypeOf(w: U64): Byte
  {
    w % 256
  }

  function PointerOf(w: U64): nat
  {
    (w / 0x1_0000) % 0x1_0000_0000_0000
  }

  lemma HeaderParts(t: Byte, ptr: U64)
    ensures TypeOf(HeaderWord(t, ptr)) == t && PointerOf(HeaderWord(t, ptr)) == ptr % 0x1_0000_0000_0000
    ensures HeaderWord(t, ptr) == 0 <==> t == 0 && ptr % 0x1_0000_0000_0000 == 0
  {
    var p := ptr % 0x1_0000_0000_0000;
    var q := p * 256;
    assert HeaderWord(t, ptr) == q * 256 + t;
    assert (q * 256 + t) / 256 == q;
  }

  /** The fields behind the header, by entry structure. */
  datatype Body =
    | FreeBody(allocIndex: U64, caller: U64)
    | AllocBody(size: U64, allocIndex: U64, caller: U64)
    | AccessBody(size: U64, caller: U64)
    | AtomicAccessBody(size: U64, atomicIndex: U64)
    | ThreadStartBody(atomicIndex: U64, threadStackPtr: U64, threadStackSize: U64)
    | AtomicBody(atomicIndex: U64)
    | MarkerBody

  /** The body each type carries. */
  ghost predicate BodyFits(t: Byte, b: Body)
  {
    match Base(t)
    case 0 => b.FreeBody?
    case 1 => b.AllocBody?
    case 22 => b.AllocBody?
    case 23 => b.AllocBody?
    case 2 => b.AccessBody?
    case 3 => b.AccessBody?
    case 4 => b.AtomicAccessBody?
    case 5 => b.AtomicAccessBody?
    case 9 => b.ThreadStartBody?
    case 24 => b.MarkerBody?
    case other => other < END_TYPE && b.AtomicBody?
  }

  /** The fields in the order of the structure. */
  function FieldsOf(b: Body): seq<U64>
  {
    match b
    case FreeBody(allocIndex, caller) => [allocIndex, caller]
    case AllocBody(size, allocIndex, caller) => [size, allocIndex, caller]
    case AccessBody(size, caller) => [size, caller]
    case AtomicAccessBody(size, atomicIndex) => [size, atomicIndex]
    case ThreadStartBody(atomicIndex, threadStackPtr, threadStackSize) => [atomicIndex, threadStackPtr, threadStackSize]
    case AtomicBody(atomicIndex) => [atomicIndex]
    case MarkerBody => []
  }

  /** A logged event: what the program did and the whole call stack it did it on. */
  datatype Record = Record(kind: Byte, ptr: U64, body: Body, stack: seq<U64>)

  ghost predicate WellFormed(r: Record)
  {
    BodyFits(r.kind, r.body) && |r.stack| < 0x1_0000_0000
  }

  function Words(s: seq<U64>): (b: seq<Byte>)
    ensures |b| == 8 * |s|
  {
    if s == [] then [] else Words(s[..|s| - 1]) + Le(s[|s| - 1], 8)
  }

  /** A stack diff: frames kept, depth, and the frames above the kept ones. */
  function Diff(kept: nat, stack: seq<U64>): (b: seq<Byte>)
    requires kept <= |stack|
    ensures |b| == 8 + 8 * (|stack| - kept)
  {
    Le(kept, 4) + Le(|stack|, 4) + Words(stack[kept..])
  }

  /** What the writer puts behind the fields. */
  function Tail(r: Record, kept: nat): seq<Byte>
    requires kept <= |r.stack|
  {
    if WithStack(r.kind) then Diff(kept, r.stack) else []
  }

  /** An entry as it stands in a fragment, keeping `kept` frames of the stack before it. */
  function Encode(r: Record, kept: nat): seq<Byte>
    requires kept <= |r.stack|
  {
    Le(HeaderWord(r.kind, r.ptr), 8) + Words(FieldsOf(r.body)) + Tail(r, kept)
  }

  /** The fixed size is header, fields and an empty stack diff; the frames come on top. */
  lemma EncodedSize(r: Record, kept: nat)
    requires WellFormed(r) && kept <= |r.stack|
    ensures |Encode(r, kept)| == FixedSize(r.kind) + if WithStack(r.kind) then 8 * (|r.stack| - kept) else 0
    ensures FixedSize(r.kind) == 8 + 8 * |FieldsOf(r.body)| + if WithStack(r.kind) then 8 else 0
  {
  }
}
