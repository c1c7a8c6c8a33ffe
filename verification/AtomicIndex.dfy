/** `subs_tsan.c` with `counters.c`: how atomic operations of concurrent threads get the indices
    that order them. A transition system: any number of threads, 128 areas of memory each with a
    lock and a slot for the first index, one shared counter, and a log per thread. */
module AtomicIndex {
  import opened Bytes

  type Thread = nat

  const AREAS := 128

  /** Addresses that agree up to their lowest six bits are in one area. */
  const LINE := 64

  function Area(addr: nat): nat
  {
    (addr / LINE) % AREAS
  }

  // ------------------------------------------------------------ operations

  datatype Kind =
    | Load
    | Store(data: seq<Byte>)
    | Update(f: seq<Byte> -> seq<Byte>)
    | Compare(expected: seq<Byte>, desired: seq<Byte>)
    | Fence

  /** An atomic operation on the bytes `addr..addr + size`; for a fence `addr` is its place in the
      program. */
  datatype Op = Op(kind: Kind, addr: nat, size: nat)

  /** Atomic accesses stay inside one line. */
  ghost predicate ValidOp(op: Op)
  {
    && op.addr % LINE + op.size <= LINE
    && match op.kind
       case Store(data) => |data| == op.size
       case Update(f) => forall v :: |v| == op.size ==> |f(v)| == op.size
       case Compare(_, desired) => |desired| == op.size
       case _ => true
  }

  /** What the operation may write, having read `seen`. A compare-exchange may fail at any time,
      but succeeds only on the expected value. */
  ghost predicate Outcome(op: Op, seen: seq<Byte>, w: Option<seq<Byte>>)
  {
    match op.kind
    case Load => w == None
    case Store(data) => w == Some(data)
    case Update(f) => w == Some(f(seen))
    case Compare(expected, desired) => w == None || (seen == expected && w == Some(desired))
    case Fence => w == None
  }

  /** Exchanges, updates and successful compare-exchanges take a second index. */
  ghost predicate TwoIndices(op: Op, w: Option<seq<Byte>>)
  {
    (op.kind.Update? || op.kind.Compare?) && w.Some?
  }

  // ------------------------------------------------------------------ state

  datatype EntryKind = AtomicRead | AtomicWrite | FenceEntry | SyncEntry

  datatype Entry = Entry(kind: EntryKind, addr: nat, size: nat, index: nat)

  /** What really happened at an index. */
  datatype Event =
    | ReadEvent(addr: nat, size: nat, value: seq<Byte>)
    | WriteEvent(addr: nat, data: seq<Byte>, from: Option<nat>)
    | FenceEvent(addr: nat)
    | SyncEvent

  datatype Phase =
    | Idle
    | Waiting(op: Op)
    | Locked(op: Op)
    | Fetched(op: Op)
    | Done(op: Op, seen: seq<Byte>, w: Option<seq<Byte>>, idxA: Option<nat>, idxB: Option<nat>)
    | Logging(rest: seq<Entry>)
    | Creating(index: nat)

  datatype State = State(
    counter: nat,
    holder: map<nat, Thread>,
    idxA: map<nat, nat>,
    memory: nat -> Byte,
    phase: map<Thread, Phase>,
    logs: map<Thread, seq<Entry>>,
    events: map<nat, Event>)

  ghost predicate Init(s: State)
  {
    s.counter == 0 && s.holder == map[] && s.phase == map[] && s.logs == map[] && s.events == map[]
  }

  function PhaseOf(s: State, t: Thread): Phase
  {
    if t in s.phase then s.phase[t] else Idle
  }

  function LogOf(s: State, t: Thread): seq<Entry>
  {
    if t in s.logs then s.logs[t] else []
  }

  function IdxA(s: State, r: nat): nat
  {
    if r in s.idxA then s.idxA[r] else 0
  }

  function ReadBytes(memory: nat -> Byte, addr: nat, size: nat): (v: seq<Byte>)
    ensures |v| == size && forall k :: 0 <= k < size ==> v[k] == memory(addr + k)
  {
    if size == 0 then [] else ReadBytes(memory, addr, size - 1) + [memory(addr + size - 1)]
  }

  function WriteBytes(memory: nat -> Byte, addr: nat, data: seq<Byte>): nat -> Byte
  {
    (x: nat) => if addr <= x < addr + |data| then data[x - addr] else memory(x)
  }

  // ------------------------------------------------------------------ steps

  datatype Action =
    | Begin(op: Op)
    | Acquire
    | FetchA
    | Perform(w: Option<seq<Byte>>)
    | ReadA
    | TakeB
    | Release
    | Append
    | Sync(obj: nat)
    | CreateBegin
    | CreateEnd(obj: nat)

  /** The event of the first index, known once the operation has been performed. */
  function FirstEvent(op: Op, seen: seq<Byte>, w: Option<seq<Byte>>): Event
  {
    match op.kind
    case Store(data) => WriteEvent(op.addr, data, None)
    case Fence => FenceEvent(op.addr)
    case _ => ReadEvent(op.addr, op.size, seen)
  }

  /** The entries logged for an operation, with its indices. */
  function Entries(op: Op, a: nat, b: Option<nat>): seq<Entry>
  {
    var first := match op.kind
      case Store(_) => AtomicWrite
      case Fence => FenceEntry
      case _ => AtomicRead;
    [Entry(first, op.addr, if op.kind.Fence? then 0 else op.size, a)]
    + if b.Some? then [Entry(AtomicWrite, op.addr, op.size, b.value)] else []
  }

  ghost predicate Can(s: State, t: Thread, act: Action)
  {
    var p := PhaseOf(s, t);
    match act
    case Begin(op) => p.Idle? && ValidOp(op)
    case Acquire => p.Waiting? && Area(p.op.addr) !in s.holder
    case FetchA => p.Locked?
    case Perform(w) => p.Fetched? && Outcome(p.op, ReadBytes(s.memory, p.op.addr, p.op.size), w)
    case ReadA => p.Done? && p.idxA.None?
    case TakeB => p.Done? && p.idxB.None? && TwoIndices(p.op, p.w)
    case Release => p.Done? && p.idxA.Some? && (TwoIndices(p.op, p.w) ==> p.idxB.Some?)
    case Append => p.Logging? && p.rest != []
    case Sync(_) => p.Idle?
    case CreateBegin => p.Idle?
    case CreateEnd(_) => p.Creating?
  }

  ghost function Apply(s: State, t: Thread, act: Action): State
    requires Can(s, t, act)
  {
    var p := PhaseOf(s, t);
    match act
    case Begin(op) => s.(phase := s.phase[t := Waiting(op)])
    case Acquire => s.(phase := s.phase[t := Locked(p.op)], holder := s.holder[Area(p.op.addr) := t])
    case FetchA =>
      s.(phase := s.phase[t := Fetched(p.op)], idxA := s.idxA[Area(p.op.addr) := s.counter], counter := s.counter + 1)
    case Perform(w) =>
      var seen := ReadBytes(s.memory, p.op.addr, p.op.size);
      s.(phase := s.phase[t := Done(p.op, seen, w, None, None)],
         memory := if w.Some? then WriteBytes(s.memory, p.op.addr, w.value) else s.memory,
         events := s.events[IdxA(s, Area(p.op.addr)) := FirstEvent(p.op, seen, w)])
    case ReadA => s.(phase := s.phase[t := p.(idxA := Some(IdxA(s, Area(p.op.addr))))])
    case TakeB =>
      s.(phase := s.phase[t := p.(idxB := Some(s.counter))], counter := s.counter + 1,
         events := s.events[s.counter := WriteEvent(p.op.addr, p.w.value, Some(IdxA(s, Area(p.op.addr))))])
    case Release =>
      s.(phase := s.phase[t := Logging(Entries(p.op, p.idxA.value, p.idxB))], holder := s.holder - {Area(p.op.addr)})
    case Append =>
      s.(phase := s.phase[t := if |p.rest| == 1 then Idle else Logging(p.rest[1..])],
         logs := s.logs[t := LogOf(s, t) + [p.rest[0]]])
    case Sync(obj) =>
      s.(logs := s.logs[t := LogOf(s, t) + [Entry(SyncEntry, obj, 0, s.counter)]],
         events := s.events[s.counter := SyncEvent], counter := s.counter + 1)
    case CreateBegin =>
      s.(phase := s.phase[t := Creating(s.counter)],
         events := s.events[s.counter := SyncEvent], counter := s.counter + 1)
    case CreateEnd(obj) =>
      s.(phase := s.phase[t := Idle], logs := s.logs[t := LogOf(s, t) + [Entry(SyncEntry, obj, 0, p.index)]])
  }

  // -------------------------------------------------------- index accounting

  ghost function LogIndices(log: seq<Entry>): (r: seq<nat>)
    ensures |r| == |log| && forall i :: 0 <= i < |log| ==> r[i] == log[i].index
  {
    seq(|log|, i requires 0 <= i < |log| => log[i].index)
  }

  /** The indices a thread has taken and not yet logged. */
  ghost function HeldIndices(s: State, t: Thread): seq<nat>
  {
    match PhaseOf(s, t)
    case Fetched(op) => [IdxA(s, Area(op.addr))]
    case Done(op, _, _, _, b) => [IdxA(s, Area(op.addr))] + if b.Some? then [b.value] else []
    case Logging(rest) => LogIndices(rest)
    case Creating(i) => [i]
    case _ => []
  }

  /** All indices a thread has taken, in the order it took them. */
  ghost function Indices(s: State, t: Thread): seq<nat>
  {
    LogIndices(LogOf(s, t)) + HeldIndices(s, t)
  }

  ghost predicate Taken(s: State, t: Thread, i: nat)
  {
    i in Indices(s, t)
  }

  ghost predicate Owned(s: State, i: nat)
  {
    exists t: Thread :: Taken(s, t, i)
  }

  ghost predicate InArea(p: Phase, r: nat)
  {
    (p.Locked? || p.Fetched? || p.Done?) && Area(p.op.addr) == r
  }

  ghost predicate HeldBy(s: State, r: nat, t: Thread)
  {
    r in s.holder && s.holder[r] == t
  }

  /** Locks are held by exactly the threads inside an operation, and a slot read is current. */
  ghost predicate Locks(s: State)
  {
    && (forall t: Thread, r: nat :: InArea(PhaseOf(s, t), r) <==> HeldBy(s, r, t))
    && (forall t: Thread :: HasA(s, t) ==> PhaseOf(s, t).idxA.value == IdxA(s, Area(PhaseOf(s, t).op.addr)))
  }

  ghost predicate HasA(s: State, t: Thread)
  {
    PhaseOf(s, t).Done? && PhaseOf(s, t).idxA.Some?
  }

  ghost predicate Increasing(q: seq<nat>)
  {
    forall i, j :: 0 <= i < j < |q| ==> q[i] < q[j]
  }

  ghost predicate Below(q: seq<nat>, n: nat)
  {
    forall i :: 0 <= i < |q| ==> q[i] < n
  }

  /** Every index below the counter has been taken by exactly one thread, and each thread takes
      and logs its indices in increasing order. */
  ghost predicate Accounted(s: State)
  {
    && (forall t: Thread :: Increasing(Indices(s, t)) && Below(Indices(s, t), s.counter))
    && (forall t: Thread, u: Thread, i: nat :: Taken(s, t, i) && Taken(s, u, i) ==> t == u)
    && (forall i: nat :: i < s.counter ==> Owned(s, i))
  }

  // --------------------------------------- what a step does to the indices

  ghost predicate TakesIndex(act: Action)
  {
    act.FetchA? || act.TakeB? || act.Sync? || act.CreateBegin?
  }

  lemma LogIndicesStep(log: seq<Entry>, e: Entry)
    ensures LogIndices(log + [e]) == LogIndices(log) + [e.index]
  {
  }

  lemma LogIndicesRest(rest: seq<Entry>)
    requires rest != []
    ensures LogIndices(rest) == [rest[0].index] + LogIndices(rest[1..])
  {
  }

  /** A step leaves the phases and logs of other threads alone. */
  lemma StepFrame(s: State, t: Thread, act: Action, u: Thread)
    requires Can(s, t, act) && u != t
    ensures
      var s' := Apply(s, t, act);
      PhaseOf(s', u) == PhaseOf(s, u) && LogOf(s', u) == LogOf(s, u)
  {
  }

  lemma StepCounter(s: State, t: Thread, act: Action)
    requires Can(s, t, act)
    ensures Apply(s, t, act).counter == s.counter + if TakesIndex(act) then 1 else 0
  {
  }

  /** Only the holder of an area changes its slot. */
  lemma StepSlot(s: State, t: Thread, act: Action, r: nat)
    requires Can(s, t, act) && !(act.FetchA? && InArea(PhaseOf(s, t), r))
    ensures IdxA(Apply(s, t, act), r) == IdxA(s, r)
  {
  }

  /** Once fetched, the first index stays in its slot until the lock is released. */
  lemma SlotStays(s: State, t: Thread, act: Action, u: Thread)
    requires Locks(s) && Can(s, t, act) && (PhaseOf(s, u).Fetched? || PhaseOf(s, u).Done?)
    ensures
      var r := Area(PhaseOf(s, u).op.addr);
      IdxA(Apply(s, t, act), r) == IdxA(s, r)
  {
    hide Apply, Area;
    var r := Area(PhaseOf(s, u).op.addr);
    assert InArea(PhaseOf(s, u), r) && HeldBy(s, r, u);
    assert InArea(PhaseOf(s, t), r) ==> HeldBy(s, r, t);
    StepSlot(s, t, act, r);
  }

  lemma OtherThread(s: State, t: Thread, act: Action, u: Thread)
    requires Locks(s) && Can(s, t, act) && u != t
    ensures Indices(Apply(s, t, act), u) == Indices(s, u)
  {
    hide Apply, Can, LogIndices, Area;
    StepFrame(s, t, act, u);
    var p := PhaseOf(s, u);
    if p.Fetched? || p.Done? { SlotStays(s, t, act, u); }
  }

  lemma Regroup(a: seq<nat>, b: seq<nat>, c: seq<nat>)
    ensures (a + b) + c == a + (b + c)
  {
  }

  lemma OwnAppend(s: State, t: Thread)
    requires Can(s, t, Append)
    ensures Indices(Apply(s, t, Append), t) == Indices(s, t)
  {
    hide LogIndices, Area;
    var log, rest, s' := LogOf(s, t), PhaseOf(s, t).rest, Apply(s, t, Append);
    LogIndicesStep(log, rest[0]);
    LogIndicesRest(rest);
    assert HeldIndices(s', t) == LogIndices(rest[1..]) by { if |rest| == 1 { assert LogIndices(rest[1..]) == []; } }
    Regroup(LogIndices(log), [rest[0].index], LogIndices(rest[1..]));
  }

  lemma OwnRelease(s: State, t: Thread)
    requires Locks(s) && Can(s, t, Release)
    ensures Indices(Apply(s, t, Release), t) == Indices(s, t)
  {
    hide LogIndices, Area, InArea;
    var p := PhaseOf(s, t);
    assert HasA(s, t);
    EntryIndices(p.op, p.idxA.value, p.idxB);
  }

  lemma OwnEvent(s: State, t: Thread, act: Action)
    requires Can(s, t, act) && (act.Sync? || act.CreateBegin? || act.CreateEnd?)
    ensures Indices(Apply(s, t, act), t) == Indices(s, t) + if TakesIndex(act) then [s.counter] else []
  {
    hide LogIndices, Area;
    if act.Sync? {
      LogIndicesStep(LogOf(s, t), Entry(SyncEntry, act.obj, 0, s.counter));
    } else if act.CreateEnd? {
      LogIndicesStep(LogOf(s, t), Entry(SyncEntry, act.obj, 0, PhaseOf(s, t).index));
    }
  }

  lemma OperationHeld(s: State, t: Thread, act: Action)
    requires Can(s, t, act) && (act.Begin? || act.Acquire? || act.FetchA? || act.Perform? || act.ReadA? || act.TakeB?)
    ensures
      var s' := Apply(s, t, act);
      && LogOf(s', t) == LogOf(s, t)
      && HeldIndices(s', t) == HeldIndices(s, t) + if TakesIndex(act) then [s.counter] else []
  {
    hide LogIndices, Area, Outcome, ValidOp, ReadBytes, WriteBytes, FirstEvent;
  }

  /** A step that takes an index appends it to the indices of its thread; no other changes them. */
  lemma OwnThread(s: State, t: Thread, act: Action)
    requires Locks(s) && Can(s, t, act)
    ensures Indices(Apply(s, t, act), t) == Indices(s, t) + if TakesIndex(act) then [s.counter] else []
  {
    hide Apply, Can, Locks, LogIndices, LogOf, HeldIndices;
    if act.Append? {
      OwnAppend(s, t);
    } else if act.Release? {
      OwnRelease(s, t);
    } else if act.Sync? || act.CreateBegin? || act.CreateEnd? {
      OwnEvent(s, t, act);
    } else {
      OperationHeld(s, t, act);
      Regroup(LogIndices(LogOf(s, t)), HeldIndices(s, t), if TakesIndex(act) then [s.counter] else []);
    }
  }

  lemma EntryIndices(op: Op, a: nat, b: Option<nat>)
    ensures LogIndices(Entries(op, a, b)) == [a] + if b.Some? then [b.value] else []
  {
  }

  lemma IndicesAfter(s: State, t: Thread, act: Action, u: Thread)
    requires Locks(s) && Can(s, t, act)
    ensures Indices(Apply(s, t, act), u) == Indices(s, u) + if u == t && TakesIndex(act) then [s.counter] else []
  {
    hide Apply, Can, Locks, Indices;
    if u == t { OwnThread(s, t, act); } else { OtherThread(s, t, act, u); }
  }

  lemma AccountedStep(s: State, t: Thread, act: Action)
    requires Locks(s) && Accounted(s) && Can(s, t, act)
    ensures Accounted(Apply(s, t, act))
  {
    hide Apply, Can, Locks, Indices;
    var s' := Apply(s, t, act);
    StepCounter(s, t, act);
    forall u: Thread
      ensures Indices(s', u) == Indices(s, u) + if u == t && TakesIndex(act) then [s.counter] else []
      ensures Increasing(Indices(s', u)) && Below(Indices(s', u), s'.counter)
      ensures forall i: nat :: Taken(s', u, i) <==> Taken(s, u, i) || (u == t && TakesIndex(act) && i == s.counter)
      ensures !Taken(s, u, s.counter)
    {
      IndicesAfter(s, t, act, u);
      assert Increasing(Indices(s, u)) && Below(Indices(s, u), s.counter);
    }
    forall i: nat | i < s'.counter ensures Owned(s', i) {
      if i < s.counter {
        assert Owned(s, i);
        var u: Thread :| Taken(s, u, i);
        assert Taken(s', u, i);
      } else {
        assert Taken(s', t, i);
      }
    }
  }

  /** Acquiring and releasing are the only steps that change who holds what. */
  lemma StepHolder(s: State, t: Thread, act: Action)
    requires Can(s, t, act)
    ensures
      var s', p, p' := Apply(s, t, act), PhaseOf(s, t), PhaseOf(Apply(s, t, act), t);
      if act.Acquire? then
        var r := Area(p.op.addr);
        r !in s.holder && s'.holder == s.holder[r := t] && forall k :: InArea(p', k) <==> k == r
      else if act.Release? then
        s'.holder == s.holder - {Area(p.op.addr)} && InArea(p, Area(p.op.addr)) && forall k :: !InArea(p', k)
      else s'.holder == s.holder && forall k :: InArea(p', k) <==> InArea(p, k)
  {
    hide Area, Outcome, ValidOp, ReadBytes, WriteBytes, FirstEvent, Entries;
  }

  lemma StepOwnSlot(s: State, t: Thread, act: Action)
    requires Can(s, t, act)
    ensures
      var s' := Apply(s, t, act);
      HasA(s', t) ==>
        if HasA(s, t) then PhaseOf(s', t).idxA == PhaseOf(s, t).idxA && PhaseOf(s', t).op == PhaseOf(s, t).op
        else PhaseOf(s', t).idxA.value == IdxA(s', Area(PhaseOf(s', t).op.addr))
  {
    hide Area, Outcome, ValidOp, ReadBytes, WriteBytes, FirstEvent, Entries;
  }

  lemma SlotsStep(s: State, t: Thread, act: Action, u: Thread)
    requires Locks(s) && Can(s, t, act) && HasA(Apply(s, t, act), u)
    ensures
      var s' := Apply(s, t, act);
      PhaseOf(s', u).idxA.value == IdxA(s', Area(PhaseOf(s', u).op.addr))
  {
    hide Apply, Can, Area, InArea;
    if u == t { StepOwnSlot(s, t, act); } else { StepFrame(s, t, act, u); }
    if HasA(s, u) { SlotStays(s, t, act, u); }
  }

  lemma HoldersStep(s: State, t: Thread, act: Action, u: Thread, r: nat)
    requires Locks(s) && Can(s, t, act)
    ensures InArea(PhaseOf(Apply(s, t, act), u), r) <==> HeldBy(Apply(s, t, act), r, u)
  {
    hide Apply, Can, Area;
    StepHolder(s, t, act);
    if u != t { StepFrame(s, t, act, u); }
    assert InArea(PhaseOf(s, u), r) <==> HeldBy(s, r, u);
    if act.Release? { assert HeldBy(s, Area(PhaseOf(s, t).op.addr), t); }
  }

  lemma LocksStep(s: State, t: Thread, act: Action)
    requires Locks(s) && Can(s, t, act)
    ensures Locks(Apply(s, t, act))
  {
    hide Apply, Can, Area, InArea, HeldBy;
    var s' := Apply(s, t, act);
    forall u: Thread, r: nat ensures InArea(PhaseOf(s', u), r) <==> HeldBy(s', r, u) {
      HoldersStep(s, t, act, u, r);
    }
    forall u: Thread | HasA(s', u)
      ensures PhaseOf(s', u).idxA.value == IdxA(s', Area(PhaseOf(s', u).op.addr))
    {
      SlotsStep(s, t, act, u);
    }
  }
}
