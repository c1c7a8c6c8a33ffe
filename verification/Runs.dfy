/** Runs of one thread: what should be logged, and into which fragments. */
module Runs {
  import opened Bytes
  import opened Entries
  import opened TraceReader
  import opened Fragment
  import opened Writer

  // -------------------------------------------------- what a run should log

  /** What a thread does, with what the system answers: whether its stack may grow, and for an event
      the trace size configured now and the outcomes of the system calls it may make. */
  datatype Op =
    | Enter(caller: U64, granted: bool)
    | Leave
    | Event(kind: Byte, ptr: U64, body: Body, traceSize: nat, io: Outcomes)

  /** The call stack after `n` steps of a run. */
  ghost function StackAt(ops: seq<Op>, n: nat): seq<U64>
    requires n <= |ops|
  {
    if n == 0 then []
    else
      var s := StackAt(ops, n - 1);
      match ops[n - 1]
      case Enter(caller, _) => s + [caller]
      case Leave => if s == [] then [] else s[..|s| - 1]
      case Event(_, _, _, _, _) => s
  }

  /** The events of known type among the first `n` steps, each with the stack it happened on. */
  ghost function LogAt(ops: seq<Op>, n: nat): seq<Record>
    requires n <= |ops|
  {
    if n == 0 then []
    else
      var l := LogAt(ops, n - 1);
      match ops[n - 1]
      case Event(kind, ptr, body, _, _) =>
        if ValidType(kind) then l + [Record(kind, ptr, body, StackAt(ops, n - 1))] else l
      case _ => l
  }

  /** The trace size configured at the first event of known type: the size of the buffer. */
  ghost function SizeAt(ops: seq<Op>, n: nat): Option<nat>
    requires n <= |ops|
  {
    if n == 0 then None
    else if SizeAt(ops, n - 1).Some? then SizeAt(ops, n - 1)
    else if ops[n - 1].Event? && ValidType(ops[n - 1].kind) then Some(ops[n - 1].traceSize)
    else None
  }

  /** The event at step `i` has the fields of its type and, if there can be a buffer, fits an empty
      fragment. */
  ghost predicate EventFits(ops: seq<Op>, i: nat)
    requires i < |ops| && ops[i].Event?
  {
    var kind, depth, size := ops[i].kind, |StackAt(ops, i)|, SizeAt(ops, i + 1);
    ValidType(kind) ==>
      && BodyFits(kind, ops[i].body)
      && (8 <= size.value <= 0x7E00_0000 ==>
            && depth < 0x1_0000_0000
            && VERSION_SIZE + FixedSize(kind) + (if WithStack(kind) then 8 * depth else 0) <= size.value)
  }

  ghost predicate RunFits(ops: seq<Op>)
  {
    forall i :: 0 <= i < |ops| && ops[i].Event? ==> EventFits(ops, i)
  }

  ghost predicate Smooth(io: Outcomes)
  {
    io.mapped && io.granted && io.unopenable.None? && io.output.Stored?
  }

  /** Something may go wrong at step `i`: memory is refused, a system call fails, or the size for
      the buffer is not a valid one. */
  ghost predicate Trouble(ops: seq<Op>, i: nat)
    requires i < |ops|
  {
    match ops[i]
    case Enter(_, granted) => !granted
    case Leave => false
    case Event(kind, _, _, traceSize, io) =>
      ValidType(kind) && (!Smooth(io) || (SizeAt(ops, i).None? && !(8 <= traceSize <= 0x7E00_0000)))
  }

  ghost predicate Untroubled(ops: seq<Op>)
  {
    forall i :: 0 <= i < |ops| ==> !Trouble(ops, i)
  }

  // ---------------------------------------------------- what goes where

  /** The lowest depth of the stack from step `m` to step `n`. */
  ghost function Lowest(ops: seq<Op>, m: nat, n: nat): nat
    requires m <= n <= |ops|
  {
    if m == n then |StackAt(ops, n)|
    else
      var low, depth := Lowest(ops, m, n - 1), |StackAt(ops, n)|;
      if low < depth then low else depth
  }

  /** The fragments closed so far, the one being filled, and the step behind the last entry in it
      that carries a stack. */
  datatype Packed = Packed(closed: seq<seq<Placed>>, current: seq<Placed>, since: Option<nat>)

  /** The frames of the stack after `n` steps that a reader of the fragment still has: those not
      popped since the last entry that carries a stack. */
  ghost function Known(ops: seq<Op>, p: Packed, n: nat): nat
    requires n <= |ops| && (p.since.Some? ==> p.since.value <= n)
  {
    if p.since.Some? then Lowest(ops, p.since.value, n) else 0
  }

  /** The bytes of an entry: header and fields, and the diff of its stack, if it carries one. */
  ghost function EntryBytes(r: Record, kept: nat): int
  {
    8 + 8 * |FieldsOf(r.body)| + if WithStack(r.kind) then 8 + 8 * (|r.stack| - kept) else 0
  }

  ghost function Total(ps: seq<Placed>): int
  {
    if ps == [] then 0 else Total(ps[..|ps| - 1]) + EntryBytes(ps[|ps| - 1].r, ps[|ps| - 1].kept)
  }

  /** The record an event logs. */
  ghost function RecordAt(ops: seq<Op>, i: nat): Record
    requires i < |ops| && ops[i].Event?
  {
    Record(ops[i].kind, ops[i].ptr, ops[i].body, StackAt(ops, i))
  }

  ghost predicate Logs(ops: seq<Op>, i: nat)
    requires i < |ops|
  {
    ops[i].Event? && ValidType(ops[i].kind)
  }

  /** That many bytes of entries fit behind the header, in the buffer and in the size configured at
      event `i`. */
  ghost predicate FitsIn(ops: seq<Op>, i: nat, bytes: int)
    requires i < |ops| && Logs(ops, i)
  {
    8 + bytes <= ops[i].traceSize && 8 + bytes <= SizeAt(ops, i + 1).value
  }

  /** Where the entries of the first `n` steps go: into the current fragment if they fit, with the
      frames the reader does not have; else into a new one, with the whole stack. */
  ghost function PackAt(ops: seq<Op>, n: nat): (p: Packed)
    requires n <= |ops|
    ensures p.since.Some? ==> p.since.value <= n
  {
    if n == 0 then Packed([], [], None)
    else
      var p := PackAt(ops, n - 1);
      if !Logs(ops, n - 1) then p
      else
        var r := RecordAt(ops, n - 1);
        var kept := if WithStack(r.kind) then Known(ops, p, n - 1) else 0;
        if FitsIn(ops, n - 1, Total(p.current) + EntryBytes(r, kept)) then
          Packed(p.closed, p.current + [Placed(r, kept)], if WithStack(r.kind) then Some(n) else p.since)
        else
          Packed(p.closed + [p.current], [Placed(r, 0)], if WithStack(r.kind) then Some(n) else None)
  }

  lemma EventLog(ops: seq<Op>, n: nat)
    requires n < |ops| && ops[n].Event?
    ensures StackAt(ops, n + 1) == StackAt(ops, n)
    ensures !ValidType(ops[n].kind) ==> LogAt(ops, n + 1) == LogAt(ops, n) && SizeAt(ops, n + 1) == SizeAt(ops, n)
    ensures ValidType(ops[n].kind) ==>
      && LogAt(ops, n + 1) == LogAt(ops, n) + [Record(ops[n].kind, ops[n].ptr, ops[n].body, StackAt(ops, n))]
      && SizeAt(ops, n + 1) == if SizeAt(ops, n).Some? then SizeAt(ops, n) else Some(ops[n].traceSize)
  {
  }

  /** A step that logs nothing changes no fragment; what it pops is no longer known. */
  lemma QuietPacked(ops: seq<Op>, n: nat)
    requires n < |ops| && !Logs(ops, n)
    ensures PackAt(ops, n + 1) == PackAt(ops, n)
    ensures
      var p, depth := PackAt(ops, n), |StackAt(ops, n + 1)|;
      var known := Known(ops, p, n);
      Known(ops, p, n + 1) == if known < depth then known else depth
  {
    hide StackAt;
  }

  /** What a reader has is part of the stack. */
  lemma {:induction false} LowestBound(ops: seq<Op>, m: nat, n: nat)
    requires m <= n <= |ops|
    ensures Lowest(ops, m, n) <= |StackAt(ops, n)|
  {
  }

  lemma EmptyTotal()
    ensures Total([]) == 0
  {
  }

  lemma {:induction false} TotalTo(ps: seq<Placed>, n: nat)
    requires AllPlaced(ps) && n <= |ps|
    ensures Total(ps[..n]) == |LayoutTo(ps, n)|
  {
    hide Encode, FieldsOf, WithStack;
    if n > 0 {
      TotalTo(ps, n - 1);
      assert PlacedOk(ps[n - 1]);
      EncodedSize(ps[n - 1].r, ps[n - 1].kept);
      assert ps[..n][..n - 1] == ps[..n - 1];
    }
  }

  /** The total is the number of bytes laid out. */
  lemma TotalIsLayout(ps: seq<Placed>)
    requires AllPlaced(ps)
    ensures Total(ps) == |Layout(ps)|
  {
    TotalTo(ps, |ps|);
    assert ps[..|ps|] == ps;
  }

  /** What an event changes: the reader then has as much as before, all, or nothing. */
  lemma EventPacked(ops: seq<Op>, n: nat)
    requires n < |ops| && Logs(ops, n)
    ensures
      var p, r := PackAt(ops, n), RecordAt(ops, n);
      var known := Known(ops, p, n);
      var kept := if WithStack(r.kind) then known else 0;
      var fits := FitsIn(ops, n, Total(p.current) + EntryBytes(r, kept));
      var q := PackAt(ops, n + 1);
      && q.closed == (if fits then p.closed else p.closed + [p.current])
      && q.current == (if fits then p.current + [Placed(r, kept)] else [Placed(r, 0)])
      && q.since == (if WithStack(r.kind) then Some(n + 1) else if fits then p.since else None)
      && Known(ops, q, n + 1) == if WithStack(r.kind) then |StackAt(ops, n)| else if fits then known else 0
  {
    hide FitsIn, Total, EntryBytes, WithStack, LogAt, SizeAt;
    EventLog(ops, n);
    if PackAt(ops, n).since.Some? { LowestBound(ops, PackAt(ops, n).since.value, n); }
  }

  /** Fragment `k` was closed at event `i`, whose entry did not fit behind those in it. */
  ghost predicate ClosedAt(ops: seq<Op>, closed: seq<seq<Placed>>, k: nat, i: nat)
    requires k < |closed|
  {
    && i < |ops| && Logs(ops, i)
    && var p, r := PackAt(ops, i), RecordAt(ops, i);
    && p.closed == closed[..k] && p.current == closed[k]
    && !FitsIn(ops, i, Total(closed[k]) + EntryBytes(r, if WithStack(r.kind) then Known(ops, p, i) else 0))
  }

  /** No fragment is closed while the next entry would fit. */
  lemma {:induction false} ClosedFull(ops: seq<Op>, n: nat, k: nat) returns (i: nat)
    requires n <= |ops| && k < |PackAt(ops, n).closed|
    ensures i < n && ClosedAt(ops, PackAt(ops, n).closed, k, i)
  {
    hide FitsIn, Total, EntryBytes, Known;
    var closed := PackAt(ops, n).closed;
    var before := PackAt(ops, n - 1).closed;
    if k < |before| {
      i := ClosedFull(ops, n - 1, k);
      assert closed[..k] == before[..k] && closed[k] == before[k];
    } else {
      i := n - 1;
      assert closed[..k] == before;
    }
  }

  /** Each fragment closed makes room for another entry. */
  lemma {:induction false} ClosedFewer(ops: seq<Op>, n: nat)
    requires n <= |ops|
    ensures |PackAt(ops, n).closed| <= |LogAt(ops, n)|
  {
    hide FitsIn, Total, EntryBytes, Known, StackAt;
    if n > 0 { ClosedFewer(ops, n - 1); }
  }

  /** The step behind the last event of the first `n` steps that carries a stack. */
  ghost function Since(ops: seq<Op>, n: nat): (s: Option<nat>)
    requires n <= |ops|
    ensures s.Some? ==> s.value <= n
  {
    if n == 0 then None
    else if Logs(ops, n - 1) && WithStack(ops[n - 1].kind) then Some(n)
    else Since(ops, n - 1)
  }

  /** The bytes of all entries of the first `n` steps, each stack without the frames not popped since the
      one before. */
  ghost function BytesAt(ops: seq<Op>, n: nat): int
    requires n <= |ops|
  {
    if n == 0 then 0
    else if !Logs(ops, n - 1) then BytesAt(ops, n - 1)
    else
      var s := Since(ops, n - 1);
      BytesAt(ops, n - 1) + EntryBytes(RecordAt(ops, n - 1), if s.Some? then Lowest(ops, s.value, n - 1) else 0)
  }

  /** Each of the first `n` events fits behind all before it. */
  ghost predicate FitsOne(ops: seq<Op>, n: nat)
    requires n <= |ops|
  {
    forall i :: 0 <= i < n && Logs(ops, i) ==> FitsIn(ops, i, BytesAt(ops, i + 1))
  }

  /** Everything goes into one fragment if and only if everything fits in one. */
  lemma {:induction false} OneFragment(ops: seq<Op>, n: nat)
    requires n <= |ops|
    ensures PackAt(ops, n).closed == [] <==> FitsOne(ops, n)
    ensures FitsOne(ops, n) ==>
      Total(PackAt(ops, n).current) == BytesAt(ops, n) && PackAt(ops, n).since == Since(ops, n)
  {
    hide FitsIn, FitsOne, PackAt, Total, EntryBytes, WithStack, StackAt;
    if n == 0 {
      EmptyPacked(ops);
    } else {
      OneFragment(ops, n - 1);
      FitsOneStep(ops, n - 1);
      if !Logs(ops, n - 1) {
        QuietPacked(ops, n - 1);
      } else {
        EventPacked(ops, n - 1);
        if FitsOne(ops, n - 1) { OneMore(ops, n - 1); }
      }
    }
  }

  lemma EmptyPacked(ops: seq<Op>)
    ensures PackAt(ops, 0) == Packed([], [], None) && FitsOne(ops, 0) && Total([]) == 0
  {
  }

  lemma FitsOneStep(ops: seq<Op>, n: nat)
    requires n < |ops|
    ensures FitsOne(ops, n + 1) <==> FitsOne(ops, n) && (Logs(ops, n) ==> FitsIn(ops, n, BytesAt(ops, n + 1)))
  {
    hide FitsIn, BytesAt;
  }

  /** As long as there is one fragment, the next entry is counted for what it takes there. */
  lemma OneMore(ops: seq<Op>, n: nat)
    requires n < |ops| && Logs(ops, n) && PackAt(ops, n).since == Since(ops, n)
    requires Total(PackAt(ops, n).current) == BytesAt(ops, n)
    ensures
      var p, r := PackAt(ops, n), RecordAt(ops, n);
      var kept := if WithStack(r.kind) then Known(ops, p, n) else 0;
      && Total(p.current) + EntryBytes(r, kept) == BytesAt(ops, n + 1)
      && Total(p.current + [Placed(r, kept)]) == BytesAt(ops, n + 1)
  {
    hide FitsIn, Lowest, FieldsOf, StackAt, PackAt;
    var p, r := PackAt(ops, n), RecordAt(ops, n);
    var kept := if WithStack(r.kind) then Known(ops, p, n) else 0;
    assert (p.current + [Placed(r, kept)])[..|p.current|] == p.current;
  }
}
