/** `thread.c`: the shadow call stack of one thread and the entries it appends. Beside the bytes,
    the object keeps as ghost state what a reader should get back: the log of records, each with
    the whole stack it was appended on. */
module Thread {
  import opened Bytes
  import opened Entries
  import opened TraceReader
  import opened Fragment
  import opened TraceDump
  import opened Writer

  const INITIAL_CAPACITY := 16

  /** The records of the first `n` fragments, in order. */
  ghost function JoinedTo(fs: seq<seq<Placed>>, n: nat): seq<Record>
    requires n <= |fs|
  {
    if n == 0 then [] else JoinedTo(fs, n - 1) + Records(fs[n - 1])
  }

  ghost function Joined(fs: seq<seq<Placed>>): seq<Record>
  {
    JoinedTo(fs, |fs|)
  }

  // ------------------------------------------------- growing a fragment

  lemma {:induction false} LayoutExtends(ps: seq<Placed>, p: Placed, n: nat)
    requires AllPlaced(ps) && PlacedOk(p) && n <= |ps|
    ensures AllPlaced(ps + [p]) && LayoutTo(ps + [p], n) == LayoutTo(ps, n)
  {
    hide Encode;
    if n > 0 { LayoutExtends(ps, p, n - 1); }
  }

  lemma {:induction false} PrevExtends(ps: seq<Placed>, p: Placed, n: nat)
    requires n <= |ps|
    ensures Prev(ps + [p], n) == Prev(ps, n)
  {
    if n > 0 { PrevExtends(ps, p, n - 1); }
  }

  /** Appending a linked entry keeps the chain and appends its bytes. */
  lemma {:induction false} ChainExtends(ps: seq<Placed>, p: Placed)
    requires Chain(ps) && PlacedOk(p)
    requires WithStack(p.r.kind) ==> Linked(Prev(ps, |ps|), p.r.stack, p.kept)
    ensures Chain(ps + [p]) && Layout(ps + [p]) == Layout(ps) + Encode(p.r, p.kept)
    ensures Records(ps + [p]) == Records(ps) + [p.r]
    ensures Prev(ps + [p], |ps| + 1) == if WithStack(p.r.kind) then Some(p.r.stack) else Prev(ps, |ps|)
  {
    hide Encode;
    LayoutExtends(ps, p, |ps|);
    PrevExtends(ps, p, |ps|);
    forall i | 0 <= i < |ps| + 1 ensures LinkedAt(ps + [p], i) {
      if i < |ps| {
        PrevExtends(ps, p, i);
        assert LinkedAt(ps, i);
      }
    }
  }

  lemma LinkedPush(prev: Option<seq<U64>>, stack: seq<U64>, kept: nat, x: U64)
    requires Linked(prev, stack, kept)
    ensures Linked(prev, stack + [x], kept)
  {
    if prev.Some? { assert (stack + [x])[..kept] == stack[..kept]; }
  }

  lemma LinkedPop(prev: Option<seq<U64>>, stack: seq<U64>, kept: nat)
    requires Linked(prev, stack, kept) && |stack| > 0
    ensures Linked(prev, stack[..|stack| - 1], if kept > |stack| - 1 then |stack| - 1 else kept)
  {
    if prev.Some? {
      var k := if kept > |stack| - 1 then |stack| - 1 else kept;
      assert prev.value[..k] == prev.value[..kept][..k] == stack[..kept][..k] == stack[..|stack| - 1][..k];
    }
  }

  /** An entry with its header and tail in place, whose fields are then filled in. */
  lemma EntryFilled(was: seq<Byte>, now: seq<Byte>, at: nat, end: nat, off: nat, r: Record, kept: nat)
    requires kept <= |r.stack| && |was| == |now| && at + 8 <= end <= off <= |now|
    requires was[at..at + 8] == Le(HeaderWord(r.kind, r.ptr), 8) && was[end..off] == Tail(r, kept)
    requires now[at..at + 8] == was[at..at + 8] && now[end..] == was[end..]
    requires now[at + 8..end] == Words(FieldsOf(r.body))
    ensures now[at..off] == Encode(r, kept)
  {
    hide Words, Le, Tail, FieldsOf, HeaderWord;
    assert now[end..off] == now[end..][..off - end] == was[end..][..off - end] == was[end..off];
    assert now[at..off] == now[at..at + 8] + now[at + 8..end] + now[end..off];
  }

  // ------------------------------------------------------------ the thread

  class Thread {
    const writer: Writer
    var stack: seq<U64>
    var capacity: nat
    var stackBottom: nat
    var failed: bool

    /** The fragments written out so far, the one being filled (or lost, if writing it out failed),
        and everything logged. */
    ghost var flushed: seq<seq<Placed>>
    ghost var current: seq<Placed>
    ghost var log: seq<Record>

    /** `stackBottom` frames of the stack are what a reader will have after the current
        fragment: the frames the next diff need not repeat. */
    ghost predicate ValidStack()
      reads this
    {
      && stackBottom <= |stack| <= capacity
      && Chain(current) && Linked(Prev(current, |current|), stack, stackBottom)
    }

    ghost predicate ValidLog()
      reads this`flushed, this`current, this`log, writer
    {
      && |flushed| == |writer.raws|
      && (forall k :: 0 <= k < |flushed| ==> Chain(flushed[k]) && writer.raws[k] == Layout(flushed[k]))
      && log == Joined(flushed) + Records(current)
      && |flushed| <= |log|
    }

    ghost predicate Valid()
      reads this, writer, writer.buffer, writer.compBuf
    {
      && writer.Valid() && ValidStack() && ValidLog()
      && (if log == [] then current == [] else |flushed| < |log|)
      && (writer.initd && !writer.failed ==> (writer.buffer == null <==> log == []))
      && (writer.damage.Torn? ==> writer.damage.raw == Layout(current))
      && (writer.buffer != null ==> writer.buffer[VERSION_SIZE..writer.offset] == Layout(current))
    }

    /** The thread has ended: every record is in a fragment written out, or in the one lost. */
    ghost predicate Ended()
      reads this, writer
    {
      && writer.ValidFiles() && ValidLog() && Chain(current)
      && (writer.damage.Torn? ==> writer.damage.raw == Layout(current))
    }

    /** `coldtrace_thread_init`. */
    constructor (w: Writer)
      requires w.Valid() && w.initd && !w.failed && w.buffer == null
      ensures Valid() && writer == w && !failed && stack == [] && log == [] && flushed == []
      ensures capacity == 0 && stackBottom == 0
    {
      writer, stack, capacity, stackBottom, failed := w, [], 0, 0, false;
      flushed, current, log := [], [], [];
    }

    /** `grow_stack_`, with the outcome of the reallocation. */
    method GrowStack(granted: bool) returns (ok: bool)
      modifies this`capacity, this`failed
      ensures ok == granted && failed == (old(failed) || !granted)
      ensures capacity ==
        if !granted then old(capacity) else if old(capacity) == 0 then 16 else 2 * old(capacity)
    {
      if !granted {
        failed := true;
        return false;
      }
      capacity := if capacity == 0 then INITIAL_CAPACITY else 2 * capacity;
      ok := true;
    }

    /** `coldtrace_thread_stack_push`. If the stack is full and cannot grow, the thread has failed. */
    method Push(caller: U64, granted: bool)
      requires Valid()
      modifies this`stack, this`capacity, this`failed
      ensures Valid() && failed == old(failed || (|stack| == capacity && !granted))
      ensures stack == if failed then old(stack) else old(stack) + [caller]
      ensures capacity ==
        if failed || old(|stack| < capacity) then old(capacity)
        else if old(capacity) == 0 then 16 else 2 * old(capacity)
    {
      hide Chain, Layout, Joined, Records, Prev, IsFile, Disk, writer.ValidFiles;
      if failed { return; }
      if |stack| == capacity {
        var ok := GrowStack(granted);
        if !ok { return; }
      }
      LinkedPush(Prev(current, |current|), stack, stackBottom, caller);
      stack := stack + [caller];
    }

    /** `coldtrace_thread_stack_pop`: on an empty stack nothing happens. */
    method Pop()
      requires Valid()
      modifies this`stack, this`stackBottom
      ensures Valid()
      ensures stack == if failed || old(stack) == [] then old(stack) else old(stack)[..|old(stack)| - 1]
      ensures stackBottom == if old(stackBottom) < |stack| then old(stackBottom) else |stack|
    {
      hide Chain, Layout, Joined, Records, Prev, IsFile, Disk, writer.ValidFiles;
      if failed { return; }
      if |stack| > 0 {
        LinkedPop(Prev(current, |current|), stack, stackBottom);
        stack := stack[..|stack| - 1];
        if stackBottom > |stack| { stackBottom := |stack|; }
      }
    }

    /** The bytes an entry of this type takes as long as the writer does not roll over. */
    ghost function Needs(kind: Byte): nat
      reads this
      requires stackBottom <= |stack|
    {
      FixedSize(kind) + if WithStack(kind) then 8 * (|stack| - stackBottom) else 0
    }

    /** An entry is taken if its type is known, neither thread nor writer has failed, and the system
        calls it takes succeed. */
    ghost predicate Accepts(kind: Byte, traceSize: nat, io: Outcomes)
      reads this, writer
      requires stackBottom <= |stack|
    {
      && !failed && ValidType(kind) && writer.Usable(traceSize, io)
      && (writer.Rolls(Needs(kind), traceSize) ==> io.output.Stored?)
    }

    /** An entry of this type, with the whole stack, fits an empty fragment. */
    ghost predicate Fits(kind: Byte, traceSize: nat)
      reads this, writer
    {
      && |stack| < 0x1_0000_0000
      && VERSION_SIZE + FixedSize(kind) + (if WithStack(kind) then 8 * |stack| else 0)
      <= if writer.buffer != null then writer.size else traceSize
    }

    /** The buffers are the ones there were, new ones of the configured trace size, or gone. */
    twostate predicate WriterOpened(traceSize: nat)
      reads this, writer
    {
      && (writer.buffer == null || writer.buffer == old(writer.buffer) || fresh(writer.buffer))
      && (writer.compBuf == null || writer.compBuf == old(writer.compBuf) || fresh(writer.compBuf))
      && writer.initd == old(writer.initd) && (old(writer.failed) ==> writer.failed)
      && (writer.buffer != null ==> writer.size == if old(writer.buffer) == null then traceSize else old(writer.size))
    }

    /** The entry was refused. A thread or writer that had failed stays as it was; a writer that fails
        now is left as the outcome of writing out a fragment says, if it had one. */
    twostate predicate Refused(kind: Byte, io: Outcomes)
      reads this, writer
    {
      && (failed || !ValidType(kind) || old(writer.failed) ==> unchanged(writer))
      && (!failed && ValidType(kind) && writer.initd ==>
            writer.failed && (!old(writer.failed) ==> writer.Left(io.output, old(writer.buffer) != null)))
    }

    /** The current fragment was closed, or not. */
    twostate predicate Turned(rolls: bool)
      reads this
    {
      if rolls then flushed == old(flushed) + [old(current)] && current == []
      else flushed == old(flushed) && current == old(current)
    }

    /** Before the first entry a reader knows no frames. */
    lemma NothingKnown()
      requires Valid() && writer.initd && !writer.failed && writer.buffer == null
      ensures stackBottom == 0 && current == []
    {
      hide Chain, Layout, Joined, Records, IsFile, Disk, writer.ValidFiles;
    }

    /** The offset is behind the header and the entries. */
    lemma OffsetIs()
      requires Valid()
      ensures AllPlaced(current) && (writer.buffer != null ==> writer.offset == 8 + |Layout(current)|)
    {
      hide Layout, Joined, Records, Prev, IsFile, Disk, Linked, LinkedAt, AllPlaced, writer.ValidFiles;
    }

    /** Space for an entry is reserved at `at`; the entries before it are in the log. */
    ghost predicate Reserved(at: nat, n: nat)
      reads this`flushed, this`current, this`log, writer, writer.buffer, writer.compBuf
    {
      && writer.Valid() && ValidLog() && Chain(current)
      && writer.buffer != null && VERSION_SIZE <= at && writer.offset == at + n
      && writer.buffer[VERSION_SIZE..at] == Layout(current)
    }

    /** A refused reservation leaves the records and what the reader knows alone. */
    twostate lemma RefusedValid(io: Outcomes)
      requires old(Valid()) && writer.Valid() && writer.buffer == null && (writer.initd ==> writer.failed)
      requires unchanged(this) && writer.initd == old(writer.initd) && writer.raws == old(writer.raws)
      requires old(writer.failed || !writer.initd) ==> unchanged(writer)
      requires !old(writer.failed) && writer.initd ==> writer.Left(io.output, old(writer.buffer) != null)
      requires old(writer.buffer) != null && writer.damage.Torn? ==>
        writer.damage.raw == old(writer.buffer[VERSION_SIZE..writer.offset])
      ensures Valid()
    {
      hide Chain, Layout, Joined, Records, Prev, IsFile, Disk, Linked, Blocked, writer.ValidFiles;
    }

    /** Reserving space: if the writer rolls over, the current fragment joins the flushed ones.
        The kept frames are still known to the reader, provided a rollover keeps none. */
    method ReserveEntry(n: nat, traceSize: nat, io: Outcomes, ghost kept: nat) returns (at: Option<nat>)
      requires Valid() && n > 0
      requires Linked(Prev(current, |current|), stack, kept) && (kept == 0 || !writer.Rolls(n, traceSize))
      requires writer.Usable(traceSize, io) ==>
        VERSION_SIZE + n <= if writer.buffer != null then writer.size else traceSize
      modifies this`flushed, this`current, writer, writer.buffer, writer.compBuf
      ensures at.Some? <==> old(writer.Usable(traceSize, io) && (writer.Rolls(n, traceSize) ==> io.output.Stored?))
      ensures at.Some? ==> old(writer.initd && !writer.failed)
      ensures at.None? ==> Valid() && (old(writer.failed) ==> unchanged(writer))
      ensures at.None? && writer.initd ==>
        writer.failed && (!old(writer.failed) ==> writer.Left(io.output, old(writer.buffer) != null))
      ensures at.Some? ==> Reserved(at.value, n)
      ensures WriterOpened(traceSize)
      ensures at.Some? ==> Linked(Prev(current, |current|), stack, kept)
      ensures Turned(at.Some? && old(writer.Rolls(n, traceSize)))
    {
      hide Chain, Layout, Joined, Records, Prev, IsFile, Disk, Linked, Blocked, writer.ValidFiles;
      ghost var rolls := writer.Rolls(n, traceSize);
      ghost var was := if writer.buffer == null then [] else writer.buffer[..writer.offset];
      at := writer.Reserve(n, traceSize, io);
      if at.None? {
        RefusedValid(io);
        return;
      }
      if rolls {
        JoinedStep(flushed, current);
        flushed, current := flushed + [current], [];
      }
      EmptyFragment(stack);
      if !rolls && old(writer.buffer) != null {
        assert writer.buffer[VERSION_SIZE..at.value]
            == writer.buffer[..at.value][VERSION_SIZE..] == was[VERSION_SIZE..];
      }
    }

    /** Bytes stored at or after `at` leave the fragment before them alone. */
    method Put(ghost at: nat, ghost n: nat, ghost lo: nat, d: nat, data: seq<Byte>)
      requires Reserved(at, n) && at <= lo <= d && d + |data| <= at + n
      modifies writer.buffer
      ensures Reserved(at, n) && writer.buffer[at..lo] == old(writer.buffer[at..lo])
      ensures writer.buffer[d..d + |data|] == data && writer.buffer[d + |data|..] == old(writer.buffer[d + |data|..])
    {
      hide Chain, Layout, Joined, Records, Prev, IsFile, Disk, Linked, writer.ValidFiles, ValidLog;
      Pieces(at, lo, d);
      Store(writer.buffer, d, data);
      Pieces(at, lo, d);
    }

    lemma Pieces(at: nat, lo: nat, d: nat)
      requires writer.buffer != null && VERSION_SIZE <= at <= lo <= d <= writer.buffer.Length
      ensures writer.buffer[..d][..VERSION_SIZE] == writer.buffer[..VERSION_SIZE]
      ensures writer.buffer[..d][VERSION_SIZE..at] == writer.buffer[VERSION_SIZE..at]
      ensures writer.buffer[..d][at..lo] == writer.buffer[at..lo]
    {
      Beginning(writer.buffer, VERSION_SIZE, d);
      Piece(writer.buffer, VERSION_SIZE, at, d);
      Piece(writer.buffer, at, lo, d);
    }

    /** The stack diff of an entry with its header already in place. */
    method PutDiff(ghost at: nat, ghost n: nat, d: nat, kept: nat)
      requires Reserved(at, n) && kept <= |stack| && at + 8 <= d && d + 8 + 8 * (|stack| - kept) == at + n
      modifies writer.buffer
      ensures Reserved(at, n) && writer.buffer[at..at + 8] == old(writer.buffer[at..at + 8])
      ensures writer.buffer[d..at + n] == Diff(kept, stack)
    {
      hide Chain, Layout, Joined, Records, Prev, IsFile, Disk, Linked, writer.ValidFiles, ValidLog;
      Put(at, n, at + 8, d, Diff(kept, stack));
    }

    /** An entry with a stack leaves the reader with that stack; another leaves it what it had. */
    ghost predicate StackNoted(kind: Byte, kept: nat)
      reads this
    {
      && kept <= |stack| <= capacity && stackBottom <= |stack|
      && Linked(Prev(current, |current|), stack, if WithStack(kind) then kept else stackBottom)
      && (WithStack(kind) ==> stackBottom == |stack|)
    }

    /** What `Append` leaves to the caller: the fields at `at + 8`. Header and tail are in place
        and the stack the reader will have is linked to the entry. */
    ghost predicate Appended(at: nat, kind: Byte, ptr: U64, kept: nat)
      requires ValidType(kind)
      reads this, writer, writer.buffer, writer.compBuf
    {
      && kept <= |stack| <= capacity
      && var tail := if WithStack(kind) then Diff(kept, stack) else [];
      && Reserved(at, FixedSize(kind) + (if WithStack(kind) then 8 * (|stack| - kept) else 0))
      && 8 <= writer.offset - |tail| - at
      && writer.buffer[at..at + 8] == Le(HeaderWord(kind, ptr), 8)
      && writer.buffer[writer.offset - |tail|..writer.offset] == tail
      && StackNoted(kind, kept)
    }

    /** Space for an entry without a stack: when the writer is about to roll over, the bottom of the stack
        is forgotten. */
    method ReservePlain(kind: Byte, len: nat, traceSize: nat, io: Outcomes) returns (at: Option<nat>)
      requires Valid() && !failed && ValidType(kind) && !WithStack(kind) && len == FixedSize(kind)
      requires writer.Usable(traceSize, io) ==> Fits(kind, traceSize)
      modifies this`stackBottom, this`flushed, this`current, writer, writer.buffer, writer.compBuf
      ensures at.Some? <==> old(Accepts(kind, traceSize, io))
      ensures at.None? ==> Valid() && Refused(kind, io)
      ensures at.Some? ==> stackBottom <= |stack| <= capacity && Reserved(at.value, len)
      ensures at.Some? ==> Linked(Prev(current, |current|), stack, stackBottom)
      ensures WriterOpened(traceSize)
      ensures
        var rolls := old(writer.Rolls(Needs(kind), traceSize));
        Turned(at.Some? && rolls) && (at.Some? ==> stackBottom == if rolls then 0 else old(stackBottom))
    {
      FixedSizes(kind);
      hide Chain, Layout, Joined, Records, Prev, IsFile, Disk, Linked, FixedSize, WithStack, ValidType, ValidLog;
      hide Reserved, Blocked, writer.ValidFiles, writer.ValidBuffer, writer.Usable, writer.Left;
      if writer.initd && !writer.failed && writer.buffer == null { NothingKnown(); }
      if writer.NewTrace(len, traceSize) {
        stackBottom := 0;
      }
      LinkedZero(current, stack);
      at := ReserveEntry(len, traceSize, io, stackBottom);
    }

    /** `coldtrace_thread_append` for an entry without a stack. */
    method AppendPlain(kind: Byte, ptr: U64, len: nat, traceSize: nat, io: Outcomes) returns (at: Option<nat>)
      requires Valid() && !failed && ValidType(kind) && !WithStack(kind) && len == FixedSize(kind)
      requires writer.Usable(traceSize, io) ==> Fits(kind, traceSize)
      modifies this`stackBottom, this`flushed, this`current, writer, writer.buffer, writer.compBuf
      ensures at.Some? <==> old(Accepts(kind, traceSize, io))
      ensures at.None? ==> Valid() && Refused(kind, io)
      ensures at.Some? ==> Appended(at.value, kind, ptr, 0)
      ensures WriterOpened(traceSize)
      ensures
        var rolls := old(writer.Rolls(Needs(kind), traceSize));
        Turned(at.Some? && rolls) && (at.Some? ==> stackBottom == if rolls then 0 else old(stackBottom))
    {
      FixedSizes(kind);
      hide Chain, Layout, Joined, Records, Prev, IsFile, Disk, Linked, HeaderWord, Diff, Le, FixedSize, WithStack;
      hide ValidType, Valid, Accepts, Needs, Appended, Reserved, Fits, writer.Usable, writer.Rolls, writer.Left;
      at := ReservePlain(kind, len, traceSize, io);
      if at.None? { return; }
      Put(at.value, len, at.value, at.value, Le(HeaderWord(kind, ptr), 8));
      AppendedPlain(at.value, kind, ptr);
    }

    lemma AppendedPlain(at: nat, kind: Byte, ptr: U64)
      requires ValidType(kind) && !WithStack(kind) && stackBottom <= |stack| <= capacity
      requires FixedSize(kind) >= 8 && Reserved(at, FixedSize(kind))
      requires writer.buffer[at..at + 8] == Le(HeaderWord(kind, ptr), 8)
      requires Linked(Prev(current, |current|), stack, stackBottom)
      ensures Appended(at, kind, ptr, 0)
    {
      hide Chain, Layout, Joined, Records, Prev, IsFile, Disk, Linked, HeaderWord, Diff, Le, FixedSize, WithStack;
      hide ValidType, ValidLog;
    }

    lemma AppendedStack(at: nat, kind: Byte, ptr: U64, kept: nat)
      requires ValidType(kind) && WithStack(kind) && kept <= |stack| == stackBottom <= capacity
      requires FixedSize(kind) >= 16 && Reserved(at, FixedSize(kind) + 8 * (|stack| - kept))
      requires writer.buffer[at..at + 8] == Le(HeaderWord(kind, ptr), 8)
      requires writer.buffer[at + FixedSize(kind) - 8..at + FixedSize(kind) + 8 * (|stack| - kept)] == Diff(kept, stack)
      requires Linked(Prev(current, |current|), stack, kept)
      ensures Appended(at, kind, ptr, kept)
    {
      hide Chain, Layout, Joined, Records, Prev, IsFile, Disk, Linked, HeaderWord, Diff, Le, FixedSize, WithStack;
      hide ValidType;
    }

    /** Space for an entry with a stack: when the writer is about to roll over, the stack diff starts from
        the bottom again. */
    method ReserveStack(kind: Byte, len: nat, traceSize: nat, io: Outcomes) returns (at: Option<nat>, bot: nat)
      requires Valid() && !failed && ValidType(kind) && WithStack(kind) && len == FixedSize(kind)
      requires writer.Usable(traceSize, io) ==> Fits(kind, traceSize)
      modifies this`flushed, this`current, writer, writer.buffer, writer.compBuf
      ensures at.Some? <==> old(Accepts(kind, traceSize, io))
      ensures at.None? ==> Valid() && Refused(kind, io)
      ensures at.Some? ==> bot <= |stack| <= capacity && Reserved(at.value, len + 8 * (|stack| - bot))
      ensures at.Some? ==> Linked(Prev(current, |current|), stack, bot)
      ensures WriterOpened(traceSize)
      ensures
        var rolls := old(writer.Rolls(Needs(kind), traceSize));
        Turned(at.Some? && rolls) && (at.Some? ==> bot == if rolls then 0 else stackBottom)
    {
      FixedSizes(kind);
      hide Chain, Layout, Joined, Records, Prev, IsFile, Disk, Linked, FixedSize, WithStack, ValidType, ValidLog;
      hide Reserved, Blocked, writer.ValidFiles, writer.ValidBuffer, writer.Usable, writer.Left;
      bot := stackBottom;
      var top := |stack|;
      var stackSize := 8 * (top - bot);
      if writer.initd && !writer.failed && writer.buffer == null { NothingKnown(); }
      if writer.NewTrace(len + stackSize, traceSize) {
        bot, stackSize := 0, 8 * top;
      }
      LinkedZero(current, stack);
      at := ReserveEntry(len + stackSize, traceSize, io, bot);
    }

    /** `coldtrace_thread_append` for an entry with a stack. */
    method AppendStack(kind: Byte, ptr: U64, len: nat, traceSize: nat, io: Outcomes)
      returns (at: Option<nat>, ghost kept: nat)
      requires Valid() && !failed && ValidType(kind) && WithStack(kind) && len == FixedSize(kind)
      requires writer.Usable(traceSize, io) ==> Fits(kind, traceSize)
      modifies this`stackBottom, this`flushed, this`current, writer, writer.buffer, writer.compBuf
      ensures at.Some? <==> old(Accepts(kind, traceSize, io))
      ensures at.None? ==> Valid() && Refused(kind, io)
      ensures at.Some? ==> Appended(at.value, kind, ptr, kept)
      ensures WriterOpened(traceSize)
      ensures
        var rolls := old(writer.Rolls(Needs(kind), traceSize));
        && Turned(at.Some? && rolls)
        && (at.Some? ==> kept == (if rolls then 0 else old(stackBottom)) && stackBottom == |stack|)
    {
      FixedSizes(kind);
      hide Chain, Layout, Joined, Records, Prev, IsFile, Disk, Linked, HeaderWord, Diff, Le, FixedSize, WithStack;
      hide ValidType, Valid, Accepts, Needs, Appended, Reserved, Fits, writer.Usable, writer.Rolls, writer.Left;
      var bot;
      at, bot := ReserveStack(kind, len, traceSize, io);
      kept := bot;
      if at.None? { return; }
      var stackSize := 8 * (|stack| - bot);
      Put(at.value, len + stackSize, at.value, at.value, Le(HeaderWord(kind, ptr), 8));
      PutDiff(at.value, len + stackSize, at.value + len - 8, bot);
      stackBottom := |stack|;
      AppendedStack(at.value, kind, ptr, kept);
    }

    /** An entry that is taken closes the fragment if it would not fit behind those there are; a stack
        keeps the frames the reader of the fragment has, and leaves it with all of them. */
    twostate predicate Packs(kind: Byte, traceSize: nat, ok: bool, kept: nat)
      requires old(stackBottom <= |stack|)
      reads this
    {
      var rolls := old(writer.Rolls(Needs(kind), traceSize));
      && Turned(ok && rolls)
      && (failed || !ValidType(kind) ==> stackBottom == old(stackBottom))
      && (ok ==> kept == (if WithStack(kind) && !rolls then old(stackBottom) else 0))
      && (ok ==> stackBottom == if WithStack(kind) then |stack| else if rolls then 0 else old(stackBottom))
    }

    /** `coldtrace_thread_append`. */
    method Append(kind: Byte, ptr: U64, traceSize: nat, io: Outcomes) returns (at: Option<nat>, ghost kept: nat)
      requires Valid()
      requires !failed && ValidType(kind) && writer.Usable(traceSize, io) ==> Fits(kind, traceSize)
      modifies this`stackBottom, this`flushed, this`current, writer, writer.buffer, writer.compBuf
      ensures at.Some? <==> old(Accepts(kind, traceSize, io))
      ensures at.None? ==> Valid() && Refused(kind, io)
      ensures at.Some? ==> Appended(at.value, kind, ptr, kept)
      ensures WriterOpened(traceSize)
      ensures Packs(kind, traceSize, at.Some?, kept)
    {
      kept := 0;
      if failed { return None, 0; }
      var len := FixedSize(kind);
      FixedSizes(kind);
      hide Appended, Fits, FixedSize, WithStack, ValidType;
      if len == 0 { return None, 0; }
      if !WithStack(kind) {
        at := AppendPlain(kind, ptr, len, traceSize, io);
      } else {
        at, kept := AppendStack(kind, ptr, len, traceSize, io);
      }
    }

    lemma AppendedParts(at: nat, r: Record, kept: nat)
      requires WellFormed(r) && r.stack == stack && Appended(at, r.kind, r.ptr, kept)
      ensures StackNoted(r.kind, kept) && kept <= |stack| && Reserved(at, |Encode(r, kept)|)
      ensures writer.buffer != null && writer.offset <= writer.buffer.Length
      ensures
        var end := at + 8 + 8 * |FieldsOf(r.body)|;
        && end + |Tail(r, kept)| == at + |Encode(r, kept)| == writer.offset
        && writer.buffer[at..at + 8] == Le(HeaderWord(r.kind, r.ptr), 8)
        && writer.buffer[end..writer.offset] == Tail(r, kept)
    {
      hide Chain, Layout, Joined, Records, Prev, IsFile, Disk, Linked, HeaderWord, Diff, Le, Words, FieldsOf;
      hide FixedSize, WithStack, ValidType, WellFormed, Encode, writer.ValidFiles;
      EncodedSize(r, kept);
    }

    /** The fields of the entry `Append` made room for. */
    method PutFields(at: nat, body: Body, ghost r: Record, ghost kept: nat)
      requires WellFormed(r) && r.body == body && r.stack == stack && Appended(at, r.kind, r.ptr, kept)
      modifies writer.buffer
      ensures StackNoted(r.kind, kept) && kept <= |stack| && Reserved(at, |Encode(r, kept)|)
      ensures writer.buffer[at..at + |Encode(r, kept)|] == Encode(r, kept)
    {
      hide *;
      AppendedParts(at, r, kept);
      ghost var n := |Encode(r, kept)|;
      ghost var was := writer.buffer[..];
      var words := Words(FieldsOf(body));
      Put(at, n, at + 8, at + 8, words);
      EntryFilled(was, writer.buffer[..], at, at + 8 + |words|, at + n, r, kept);
    }

    /** A complete entry joins the current fragment and the log. */
    ghost method Enter(at: nat, r: Record, kept: nat)
      requires WellFormed(r) && r.stack == stack && StackNoted(r.kind, kept) && kept <= |stack|
      requires Reserved(at, |Encode(r, kept)|) && writer.buffer[at..at + |Encode(r, kept)|] == Encode(r, kept)
      modifies this`current, this`log
      ensures Valid() && writer.buffer != null && log == old(log) + [r]
      ensures current == old(current) + [Placed(r, kept)]
    {
      hide Chain, Layout, Joined, Records, Prev, IsFile, Disk, Encode, writer.ValidFiles, WellFormed;
      ChainExtends(current, Placed(r, kept));
      assert writer.buffer[VERSION_SIZE..writer.offset]
          == writer.buffer[VERSION_SIZE..at] + writer.buffer[at..writer.offset];
      assert log + [r] == Joined(flushed) + (Records(current) + [r]);
      current, log := current + [Placed(r, kept)], log + [r];
    }

    /** One traced event: an entry is appended and its fields are filled in. It is in the log, with
        the whole stack, exactly if the entry is accepted. */
    method Log(kind: Byte, ptr: U64, body: Body, traceSize: nat, io: Outcomes) returns (ok: bool)
      requires Valid() && (ValidType(kind) ==> BodyFits(kind, body))
      requires !failed && ValidType(kind) && writer.Usable(traceSize, io) ==> Fits(kind, traceSize)
      modifies this`stackBottom, this`flushed, this`current, this`log, writer, writer.buffer, writer.compBuf
      ensures Valid()
      ensures ok <==> old(Accepts(kind, traceSize, io))
      ensures ok ==> ValidType(kind) && writer.buffer != null
      ensures !ok ==> Refused(kind, io)
      ensures WriterOpened(traceSize)
      ensures log == if ok then old(log) + [Record(kind, ptr, body, stack)] else old(log)
      ensures
        var r, rolls := Record(kind, ptr, body, stack), old(writer.Rolls(Needs(kind), traceSize));
        && (failed || !ValidType(kind) ==> stackBottom == old(stackBottom))
        && (!ok ==> flushed == old(flushed) && current == old(current))
        && (ok && !rolls ==>
              && flushed == old(flushed)
              && current == old(current) + [Placed(r, if WithStack(kind) then old(stackBottom) else 0)])
        && (ok && rolls ==> flushed == old(flushed) + [old(current)] && current == [Placed(r, 0)])
        && (ok ==> stackBottom == if WithStack(kind) then |stack| else if rolls then 0 else old(stackBottom))
    {
      hide Chain, Layout, Joined, Records, Prev, IsFile, Disk, Linked, Encode, FixedSize, ValidType, BodyFits;
      hide Valid, Appended, Reserved, StackNoted, Blocked, writer.Usable;
      var at;
      ghost var kept;
      at, kept := Append(kind, ptr, traceSize, io);
      if at.None? { return false; }
      ghost var r := Record(kind, ptr, body, stack);
      PutFields(at.value, body, r, kept);
      Enter(at.value, r, kept);
      ok := true;
    }

    /** `coldtrace_thread_fini`. */
    method Fini(output: Output)
      requires Valid()
      modifies this, writer, writer.compBuf
      ensures Ended() && writer.buffer == null && log == old(log)
      ensures stack == [] && capacity == 0 && stackBottom == 0 && failed == old(failed)
      ensures old(writer.buffer) != null ==> writer.Left(output, true)
      ensures old(writer.buffer) == null ==>
        unchanged(writer`files, writer`before, writer`first, writer`written, writer`raws, writer`damage)
      ensures
        if old(writer.buffer) != null && output.Stored? then flushed == old(flushed) + [old(current)] && current == []
        else flushed == old(flushed) && current == old(current)
    {
      hide Chain, Layout, Joined, Records, Prev, IsFile, Disk, Linked, writer.ValidFiles;
      ghost var stored := writer.buffer != null && output.Stored?;
      writer.Fini(output);
      EmptyFragment([]);
      if stored {
        JoinedStep(flushed, current);
        flushed, current := flushed + [current], [];
      }
      stack, capacity, stackBottom := [], 0, 0;
    }
  }

  lemma FixedSizes(kind: Byte)
    ensures FixedSize(kind) > 0 <==> ValidType(kind)
    ensures ValidType(kind) ==> FixedSize(kind) >= if WithStack(kind) then 16 else 8
  {
  }

  lemma LinkedZero(ps: seq<Placed>, stack: seq<U64>)
    ensures Linked(Prev(ps, |ps|), stack, 0)
  {
  }

  lemma EmptyFragment(stack: seq<U64>)
    ensures Chain([]) && Layout([]) == [] && Records([]) == [] && Linked(Prev([], 0), stack, 0)
  {
  }

  lemma {:induction false} JoinedPrefix(fs: seq<seq<Placed>>, ps: seq<Placed>, n: nat)
    requires n <= |fs|
    ensures JoinedTo(fs + [ps], n) == JoinedTo(fs, n)
  {
    if n > 0 { JoinedPrefix(fs, ps, n - 1); }
  }

  lemma JoinedStep(fs: seq<seq<Placed>>, ps: seq<Placed>)
    ensures Joined(fs + [ps]) == Joined(fs) + Records(ps)
  {
    JoinedPrefix(fs, ps, |fs|);
  }
}
