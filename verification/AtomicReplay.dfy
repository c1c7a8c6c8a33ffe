/** The indices of `AtomicIndex` serialise the atomic operations: replaying them in index order
    gives every read what it really saw. */
module AtomicReplay {
  import opened Bytes
  import opened AtomicIndex

  // ----------------------------------------------------------------- replay

  ghost predicate Writes(ev: Event, x: nat)
  {
    ev.WriteEvent? && ev.addr <= x < ev.addr + |ev.data|
  }

  /** Byte `x` after replaying all events with an index below `i`, in index order. */
  ghost function ByteAt(start: nat -> Byte, events: map<nat, Event>, x: nat, i: nat): Byte
  {
    if i == 0 then start(x)
    else if i - 1 in events && Writes(events[i - 1], x) then events[i - 1].data[x - events[i - 1].addr]
    else ByteAt(start, events, x, i - 1)
  }

  /** No event with an index from `i` to below `j` writes byte `x`. */
  ghost predicate Quiet(events: map<nat, Event>, x: nat, i: nat, j: nat)
  {
    forall k: nat :: i <= k < j && k in events ==> !Writes(events[k], x)
  }

  lemma {:induction false} QuietBytes(start: nat -> Byte, events: map<nat, Event>, x: nat, i: nat, j: nat)
    requires i <= j && Quiet(events, x, i, j)
    ensures ByteAt(start, events, x, j) == ByteAt(start, events, x, i)
    decreases j
  {
    if i < j { QuietBytes(start, events, x, i, j - 1); }
  }

  /** A new event changes nothing before it. */
  lemma {:induction false} InsertBefore(start: nat -> Byte, events: map<nat, Event>, n: nat, ev: Event, x: nat, i: nat)
    requires n !in events && (i <= n || !Writes(ev, x))
    ensures ByteAt(start, events[n := ev], x, i) == ByteAt(start, events, x, i)
  {
    if i > 0 { InsertBefore(start, events, n, ev, x, i - 1); }
  }

  /** If nothing behind a new write touches byte `x`, its value is there at the end. */
  lemma {:induction false} InsertWrite(start: nat -> Byte, events: map<nat, Event>, n: nat, ev: Event, x: nat, i: nat)
    requires n !in events && n < i && Writes(ev, x) && Quiet(events, x, n, i)
    ensures ByteAt(start, events[n := ev], x, i) == ev.data[x - ev.addr]
  {
    var e := events[n := ev];
    assert Quiet(e, x, n + 1, i) by {
      forall k: nat | n + 1 <= k < i && k in e ensures !Writes(e[k], x) { assert k in events; }
    }
    QuietBytes(start, e, x, n + 1, i);
  }

  // ------------------------------------------------------------- invariants

  ghost predicate EventIn(ev: Event, r: nat)
  {
    !ev.SyncEvent? && Area(ev.addr) == r
  }

  lemma SameArea(addr: nat, size: nat, x: nat)
    requires addr % LINE + size <= LINE && addr <= x < addr + size
    ensures Area(x) == Area(addr)
  {
  }

  /** The event at `i` is what really happened: a read saw what the replay gives it, and between
      the two indices of an update nothing happened in its area. */
  ghost predicate Faithful(start: nat -> Byte, events: map<nat, Event>, i: nat)
    requires i in events
  {
    match events[i]
    case ReadEvent(addr, size, value) =>
      && addr % LINE + size <= LINE && |value| == size
      && forall k :: 0 <= k < size ==> value[k] == ByteAt(start, events, addr + k, i)
    case WriteEvent(addr, data, from) =>
      && addr % LINE + |data| <= LINE
      && (from.Some? ==> Adjacent(events, from.value, i))
    case _ => true
  }

  /** `a` and `b` are the read and the write of one update, with nothing of their area between. */
  ghost predicate Adjacent(events: map<nat, Event>, a: nat, b: nat)
    requires b in events && events[b].WriteEvent?
  {
    && a < b && a in events && events[a].ReadEvent?
    && events[a].addr == events[b].addr && events[a].size == |events[b].data|
    && forall k: nat :: a < k < b && k in events ==> !EventIn(events[k], Area(events[b].addr))
  }

  ghost predicate Inside(s: State, t: Thread)
  {
    PhaseOf(s, t).Fetched? || PhaseOf(s, t).Done?
  }

  /** A thread inside an operation has the newest index of its area. */
  ghost predicate Newest(s: State, t: Thread)
    requires Inside(s, t)
  {
    var p := PhaseOf(s, t);
    var r := Area(p.op.addr);
    var a := IdxA(s, r);
    && ValidOp(p.op)
    && (forall i: nat :: i in s.events && EventIn(s.events[i], r) ==> i <= a || (p.Done? && p.idxB == Some(i)))
    && (if p.Fetched? then a !in s.events
        else
          && |p.seen| == p.op.size && Outcome(p.op, p.seen, p.w)
          && a in s.events && s.events[a] == FirstEvent(p.op, p.seen, p.w)
          && (p.idxB.Some? ==>
                && TwoIndices(p.op, p.w) && p.idxB.value in s.events
                && s.events[p.idxB.value] == WriteEvent(p.op.addr, p.w.value, Some(a))))
  }

  ghost predicate PhasesValid(s: State)
  {
    forall t: Thread :: PhaseOf(s, t).Waiting? || PhaseOf(s, t).Locked? ==> ValidOp(PhaseOf(s, t).op)
  }

  /** A write that has been performed but has no index of its own yet. */
  ghost predicate Unindexed(p: Phase, x: nat)
  {
    && p.Done? && p.idxB.None? && TwoIndices(p.op, p.w)
    && p.op.addr <= x < p.op.addr + |p.w.value|
  }

  ghost function Pending(s: State, x: nat): Option<Byte>
  {
    if Area(x) in s.holder && Unindexed(PhaseOf(s, s.holder[Area(x)]), x) then
      var p := PhaseOf(s, s.holder[Area(x)]);
      Some(p.w.value[x - p.op.addr])
    else None
  }

  /** What byte `x` of memory should be: what the replay of all events gives, but for such a
      write. */
  ghost function Expected(start: nat -> Byte, s: State, x: nat): Byte
  {
    if Pending(s, x).Some? then Pending(s, x).value else ByteAt(start, s.events, x, s.counter)
  }

  ghost predicate Inv(start: nat -> Byte, s: State)
  {
    && Locks(s) && Accounted(s) && PhasesValid(s)
    && (forall i: nat :: i in s.events ==> i < s.counter)
    && (forall i: nat :: i in s.events ==> Faithful(start, s.events, i))
    && (forall t: Thread :: Inside(s, t) ==> Newest(s, t))
    && (forall x: nat :: s.memory(x) == Expected(start, s, x))
  }

  // ----------------------------------------------------- what a step records

  /** The event a step adds. */
  ghost function Recorded(s: State, t: Thread, act: Action): Option<(nat, Event)>
    requires Can(s, t, act)
  {
    var p := PhaseOf(s, t);
    match act
    case Perform(w) =>
      Some((IdxA(s, Area(p.op.addr)), FirstEvent(p.op, ReadBytes(s.memory, p.op.addr, p.op.size), w)))
    case TakeB => Some((s.counter, WriteEvent(p.op.addr, p.w.value, Some(IdxA(s, Area(p.op.addr))))))
    case Sync(_) => Some((s.counter, SyncEvent))
    case CreateBegin => Some((s.counter, SyncEvent))
    case _ => None
  }

  lemma StepEvents(s: State, t: Thread, act: Action)
    requires Can(s, t, act)
    ensures
      var s', e := Apply(s, t, act), Recorded(s, t, act);
      s'.events == if e.Some? then s.events[e.value.0 := e.value.1] else s.events
  {
  }

  /** An index a thread inside an operation holds is below the counter. */
  lemma HeldBelow(s: State, t: Thread)
    requires Accounted(s) && Inside(s, t)
    ensures
      var a := IdxA(s, Area(PhaseOf(s, t).op.addr));
      a < s.counter && Taken(s, t, a)
  {
    hide LogIndices, Area, Increasing, Owned;
    var a := IdxA(s, Area(PhaseOf(s, t).op.addr));
    assert a in HeldIndices(s, t);
    assert a in Indices(s, t) && Below(Indices(s, t), s.counter);
  }

  /** A new event stands behind all others of its area. */
  ghost predicate Behind(events: map<nat, Event>, n: nat, ev: Event)
  {
    && n !in events
    && (ev.WriteEvent? ==> ev.addr % LINE + |ev.data| <= LINE)
    && (!ev.SyncEvent? ==> forall i: nat :: i in events && EventIn(events[i], Area(ev.addr)) ==> i < n)
  }

  lemma RecordedBehind(start: nat -> Byte, s: State, t: Thread, act: Action)
    requires Inv(start, s) && Can(s, t, act) && Recorded(s, t, act).Some?
    ensures
      var (n, ev) := Recorded(s, t, act).value;
      Behind(s.events, n, ev) && n < Apply(s, t, act).counter
  {
    hide Locks, Accounted, Faithful, Area, ReadBytes, Apply, Expected;
    StepCounter(s, t, act);
    if Inside(s, t) {
      assert Newest(s, t);
      HeldBelow(s, t);
    }
  }

  /** Events already there stay faithful. */
  lemma FaithfulStays(start: nat -> Byte, events: map<nat, Event>, n: nat, ev: Event, i: nat)
    requires Behind(events, n, ev) && i in events && Faithful(start, events, i)
    ensures Faithful(start, events[n := ev], i)
  {
    hide Area, ByteAt;
    match events[i]
    case ReadEvent(addr, size, value) =>
      forall k | 0 <= k < size ensures value[k] == ByteAt(start, events[n := ev], addr + k, i) {
        SameArea(addr, size, addr + k);
        if Writes(ev, addr + k) {
          SameArea(ev.addr, |ev.data|, addr + k);
          assert EventIn(events[i], Area(ev.addr));
        }
        InsertBefore(start, events, n, ev, addr + k, i);
      }
    case WriteEvent(addr, data, from) =>
      if from.Some? { assert EventIn(events[i], Area(addr)); }
    case _ =>
  }

  lemma WriterInArea(start: nat -> Byte, events: map<nat, Event>, k: nat, x: nat)
    requires k in events && Faithful(start, events, k) && Writes(events[k], x)
    ensures EventIn(events[k], Area(x))
  {
    SameArea(events[k].addr, |events[k].data|, x);
  }

  /** While its thread is inside the operation, memory in the area is what the replay gives. */
  lemma BytesNow(start: nat -> Byte, s: State, t: Thread, x: nat)
    requires Inv(start, s) && PhaseOf(s, t).Fetched?
    requires
      var op := PhaseOf(s, t).op;
      op.addr <= x < op.addr + op.size
    ensures
      var a := IdxA(s, Area(PhaseOf(s, t).op.addr));
      Quiet(s.events, x, a, s.counter) && s.memory(x) == ByteAt(start, s.events, x, a)
  {
    hide ByteAt, Area, Accounted;
    var op := PhaseOf(s, t).op;
    var r := Area(op.addr);
    var a := IdxA(s, r);
    assert Newest(s, t);
    assert InArea(PhaseOf(s, t), r) && HeldBy(s, r, t);
    SameArea(op.addr, op.size, x);
    forall k: nat | a <= k < s.counter && k in s.events ensures !Writes(s.events[k], x) {
      assert Faithful(start, s.events, k);
      if Writes(s.events[k], x) { WriterInArea(start, s.events, k, x); }
    }
    HeldBelow(s, t);
    QuietBytes(start, s.events, x, a, s.counter);
  }

  /** A performed operation is recorded as it happened. */
  lemma PerformFaithful(start: nat -> Byte, s: State, t: Thread, act: Action)
    requires Inv(start, s) && Can(s, t, act) && act.Perform?
    ensures
      var (n, ev) := Recorded(s, t, act).value;
      Faithful(start, s.events[n := ev], n)
  {
    hide Area, ByteAt, Locks, Accounted, Expected;
    var op := PhaseOf(s, t).op;
    var (n, ev) := Recorded(s, t, act).value;
    assert Newest(s, t);
    if ev.ReadEvent? {
      forall k | 0 <= k < op.size ensures ev.value[k] == ByteAt(start, s.events[n := ev], op.addr + k, n) {
        BytesNow(start, s, t, op.addr + k);
        InsertBefore(start, s.events, n, ev, op.addr + k, n);
      }
    }
  }

  /** The write of an update directly follows its read in the area. */
  lemma TakeFaithful(start: nat -> Byte, s: State, t: Thread)
    requires Inv(start, s) && Can(s, t, TakeB)
    ensures
      var (n, ev) := Recorded(s, t, TakeB).value;
      Faithful(start, s.events[n := ev], n)
  {
    hide Area, ByteAt, Locks, Accounted, Expected, Faithful;
    var p := PhaseOf(s, t);
    var (n, ev) := Recorded(s, t, TakeB).value;
    assert Newest(s, t);
    HeldBelow(s, t);
    WrittenSize(p.op, p.seen, p.w);
    assert Adjacent(s.events[n := ev], ev.from.value, n);
    WriteFaithful(start, s.events[n := ev], n);
  }

  lemma WriteFaithful(start: nat -> Byte, events: map<nat, Event>, n: nat)
    requires n in events && events[n].WriteEvent? && events[n].addr % LINE + |events[n].data| <= LINE
    requires events[n].from.Some? ==> Adjacent(events, events[n].from.value, n)
    ensures Faithful(start, events, n)
  {
  }

  lemma WrittenSize(op: Op, seen: seq<Byte>, w: Option<seq<Byte>>)
    requires ValidOp(op) && |seen| == op.size && Outcome(op, seen, w) && w.Some?
    ensures |w.value| == op.size
  {
  }

  lemma FaithfulStep(start: nat -> Byte, s: State, t: Thread, act: Action, i: nat)
    requires Inv(start, s) && Can(s, t, act) && i in Apply(s, t, act).events
    ensures i < Apply(s, t, act).counter && Faithful(start, Apply(s, t, act).events, i)
  {
    hide Apply, Faithful, Newest, Locks, Accounted, Expected, Behind;
    var s', e := Apply(s, t, act), Recorded(s, t, act);
    StepEvents(s, t, act);
    StepCounter(s, t, act);
    if e.Some? {
      var (n, ev) := e.value;
      RecordedBehind(start, s, t, act);
      if i == n {
        RecordedFaithful(start, s, t, act);
      } else {
        FaithfulStays(start, s.events, n, ev, i);
      }
    }
  }

  lemma RecordedFaithful(start: nat -> Byte, s: State, t: Thread, act: Action)
    requires Inv(start, s) && Can(s, t, act) && Recorded(s, t, act).Some?
    ensures
      var (n, ev) := Recorded(s, t, act).value;
      Faithful(start, s.events[n := ev], n)
  {
    hide Inv, ByteAt;
    if act.Perform? {
      PerformFaithful(start, s, t, act);
    } else if act.TakeB? {
      TakeFaithful(start, s, t);
    }
  }

  // ------------------------------------------------- threads inside operations

  /** Two threads inside operations are in different areas and hold different indices. */
  lemma Apart(s: State, t: Thread, u: Thread)
    requires Locks(s) && Accounted(s) && t != u && Inside(s, t) && Inside(s, u)
    ensures
      var r, k := Area(PhaseOf(s, t).op.addr), Area(PhaseOf(s, u).op.addr);
      r != k && IdxA(s, r) != IdxA(s, k)
  {
    hide Area, Indices, Taken;
    var r, k := Area(PhaseOf(s, t).op.addr), Area(PhaseOf(s, u).op.addr);
    assert InArea(PhaseOf(s, t), r) && InArea(PhaseOf(s, u), k);
    HeldBelow(s, t);
    HeldBelow(s, u);
    assert HeldBy(s, r, t) && HeldBy(s, k, u);
  }

  lemma NewestOther(start: nat -> Byte, s: State, t: Thread, act: Action, u: Thread)
    requires Inv(start, s) && Can(s, t, act) && u != t && Inside(s, u)
    ensures Inside(Apply(s, t, act), u) && Newest(Apply(s, t, act), u)
  {
    hide Area, Apply, Faithful, Expected, Outcome, ValidOp, FirstEvent;
    StepFrame(s, t, act, u);
    SlotStays(s, t, act, u);
    StepEvents(s, t, act);
    assert Newest(s, u);
    HeldBelow(s, u);
    if Recorded(s, t, act).Some? {
      RecordedBehind(start, s, t, act);
      if Inside(s, t) {
        Apart(s, t, u);
        RecordedArea(s, t, act);
      }
    }
  }

  lemma RecordedArea(s: State, t: Thread, act: Action)
    requires Can(s, t, act) && Recorded(s, t, act).Some? && Inside(s, t)
    ensures
      var (n, ev) := Recorded(s, t, act).value;
      var r := Area(PhaseOf(s, t).op.addr);
      ev.addr == PhaseOf(s, t).op.addr && (n == IdxA(s, r) || n == s.counter)
  {
  }

  lemma FetchNewest(start: nat -> Byte, s: State, t: Thread)
    requires Inv(start, s) && Can(s, t, FetchA)
    ensures Inside(Apply(s, t, FetchA), t) && Newest(Apply(s, t, FetchA), t)
  {
    hide Area, Faithful, Expected, Locks, Accounted, ValidOp;
  }

  lemma PerformNewest(start: nat -> Byte, s: State, t: Thread, act: Action)
    requires Inv(start, s) && Can(s, t, act) && act.Perform?
    ensures Inside(Apply(s, t, act), t) && Newest(Apply(s, t, act), t)
  {
    hide Area, Faithful, Expected, Locks, Accounted, ValidOp, FirstEvent, Outcome;
    assert Newest(s, t);
  }

  lemma ReadNewest(start: nat -> Byte, s: State, t: Thread)
    requires Inv(start, s) && Can(s, t, ReadA)
    ensures Inside(Apply(s, t, ReadA), t) && Newest(Apply(s, t, ReadA), t)
  {
    hide Area, Faithful, Expected, Locks, Accounted, ValidOp, FirstEvent, Outcome;
    assert Newest(s, t);
  }

  lemma TakeNewest(start: nat -> Byte, s: State, t: Thread)
    requires Inv(start, s) && Can(s, t, TakeB)
    ensures Inside(Apply(s, t, TakeB), t) && Newest(Apply(s, t, TakeB), t)
  {
    hide Area, Faithful, Expected, Locks, Accounted, ValidOp, FirstEvent, Outcome, TwoIndices;
    assert Newest(s, t);
    HeldBelow(s, t);
  }

  /** A thread is inside its operation from the fetching of the first index to the release. */
  lemma InsideAfter(s: State, t: Thread, act: Action)
    requires Can(s, t, act) && Inside(Apply(s, t, act), t)
    ensures act == FetchA || act.Perform? || act == ReadA || act == TakeB
  {
  }

  lemma NewestStep(start: nat -> Byte, s: State, t: Thread, act: Action, u: Thread)
    requires Inv(start, s) && Can(s, t, act) && Inside(Apply(s, t, act), u)
    ensures Newest(Apply(s, t, act), u)
  {
    hide Apply, Can, Newest, Inv;
    if u != t {
      StepFrame(s, t, act, u);
      NewestOther(start, s, t, act, u);
    } else {
      InsideAfter(s, t, act);
      match act
      case FetchA => FetchNewest(start, s, t);
      case Perform(_) => PerformNewest(start, s, t, act);
      case ReadA => ReadNewest(start, s, t);
      case TakeB => TakeNewest(start, s, t);
    }
  }

  lemma PhasesValidStep(s: State, t: Thread, act: Action)
    requires PhasesValid(s) && Can(s, t, act)
    ensures PhasesValid(Apply(s, t, act))
  {
    hide ValidOp;
    var s' := Apply(s, t, act);
    forall u: Thread | PhaseOf(s', u).Waiting? || PhaseOf(s', u).Locked? ensures ValidOp(PhaseOf(s', u).op) {
      if u != t { StepFrame(s, t, act, u); }
      assert PhaseOf(s, u).Waiting? || PhaseOf(s, u).Locked? ==> ValidOp(PhaseOf(s, u).op);
    }
  }

  // ----------------------------------------------------------------- memory

  /** Phases that have nothing pending are alike. */
  lemma PendingSame(s: State, t: Thread, act: Action, x: nat)
    requires Locks(s) && Can(s, t, act) && !act.Perform? && !act.TakeB?
    ensures Pending(Apply(s, t, act), x) == Pending(s, x)
  {
    hide Apply, Can, Area, IdxA;
    var r, s' := Area(x), Apply(s, t, act);
    StepHolder(s, t, act);
    StepPending(s, t, act, x);
    if r in s.holder && s.holder[r] != t { StepFrame(s, t, act, s.holder[r]); }
    assert InArea(PhaseOf(s, t), r) <==> HeldBy(s, r, t);
  }

  lemma StepPending(s: State, t: Thread, act: Action, x: nat)
    requires Can(s, t, act) && !act.Perform? && !act.TakeB?
    ensures
      var p, p' := PhaseOf(s, t), PhaseOf(Apply(s, t, act), t);
      && (Unindexed(p', x) <==> Unindexed(p, x))
      && (Unindexed(p, x) ==> !act.Release? && p'.op == p.op && p'.w == p.w)
  {
    hide Area, IdxA;
  }

  lemma QuietStep(start: nat -> Byte, s: State, t: Thread, act: Action, x: nat)
    requires Can(s, t, act) && !act.Perform? && !act.TakeB? && s.counter !in s.events
    ensures
      var s' := Apply(s, t, act);
      s'.memory == s.memory && ByteAt(start, s'.events, x, s'.counter) == ByteAt(start, s.events, x, s.counter)
  {
    hide Area, IdxA;
    InsertBefore(start, s.events, s.counter, SyncEvent, x, s.counter);
  }

  /** What is pending in an area belongs to the thread inside. */
  lemma PendingInside(s: State, t: Thread, x: nat)
    requires Locks(s) && Inside(s, t)
    ensures
      var p, b := PhaseOf(s, t), Pending(s, x);
      if Area(x) == Area(p.op.addr) then b == if Unindexed(p, x) then Some(p.w.value[x - p.op.addr]) else None
      else forall u: Thread :: HeldBy(s, Area(x), u) ==> u != t
  {
    hide Area, IdxA;
    var p := PhaseOf(s, t);
    assert InArea(p, Area(p.op.addr)) && HeldBy(s, Area(p.op.addr), t);
    assert HeldBy(s, Area(x), t) ==> InArea(p, Area(x));
  }

  /** A step inside an operation leaves alone what is pending elsewhere. */
  lemma PendingElsewhere(s: State, t: Thread, act: Action, x: nat)
    requires Locks(s) && Can(s, t, act) && (act.Perform? || act.TakeB?) && Area(x) != Area(PhaseOf(s, t).op.addr)
    ensures Pending(Apply(s, t, act), x) == Pending(s, x)
  {
    hide Apply, Area, IdxA, Locks;
    PendingInside(s, t, x);
    StepHolder(s, t, act);
    if Area(x) in s.holder {
      assert HeldBy(s, Area(x), s.holder[Area(x)]);
      StepFrame(s, t, act, s.holder[Area(x)]);
    }
  }

  lemma TakeMemory(start: nat -> Byte, s: State, t: Thread, x: nat)
    requires Inv(start, s) && Can(s, t, TakeB)
    ensures Apply(s, t, TakeB).memory(x) == Expected(start, Apply(s, t, TakeB), x)
  {
    hide Area, IdxA, Accounted, Faithful, Locks, Pending;
    var p, s' := PhaseOf(s, t), Apply(s, t, TakeB);
    assert Newest(s, t);
    WrittenSize(p.op, p.seen, p.w);
    InsertBefore(start, s.events, s.counter, s'.events[s.counter], x, s.counter);
    if Area(x) == Area(p.op.addr) {
      PendingInside(s, t, x);
      LocksStep(s, t, TakeB);
      PendingInside(s', t, x);
    } else {
      if p.op.addr <= x < p.op.addr + p.op.size { SameArea(p.op.addr, p.op.size, x); }
      PendingElsewhere(s, t, TakeB, x);
    }
  }

  /** What the replay of a performed operation gives. */
  lemma PerformBytes(start: nat -> Byte, s: State, t: Thread, act: Action, x: nat)
    requires Inv(start, s) && Can(s, t, act) && act.Perform?
    ensures
      var (n, ev) := Recorded(s, t, act).value;
      ByteAt(start, s.events[n := ev], x, s.counter)
      == if Writes(ev, x) then ev.data[x - ev.addr] else ByteAt(start, s.events, x, s.counter)
  {
    hide Area, IdxA, Accounted, Faithful, ByteAt, ReadBytes, Locks, Expected;
    var op := PhaseOf(s, t).op;
    var (n, ev) := Recorded(s, t, act).value;
    assert Newest(s, t);
    HeldBelow(s, t);
    if Writes(ev, x) {
      BytesNow(start, s, t, x);
      InsertWrite(start, s.events, n, ev, x, s.counter);
    } else {
      InsertBefore(start, s.events, n, ev, x, s.counter);
    }
  }

  lemma PerformMemory(start: nat -> Byte, s: State, t: Thread, act: Action, x: nat)
    requires Inv(start, s) && Can(s, t, act) && act.Perform?
    ensures Apply(s, t, act).memory(x) == Expected(start, Apply(s, t, act), x)
  {
    hide Area, IdxA, Accounted, Faithful, ByteAt, ReadBytes, Locks, Pending;
    var op, s' := PhaseOf(s, t).op, Apply(s, t, act);
    assert Newest(s, t);
    if act.w.Some? { WrittenSize(op, ReadBytes(s.memory, op.addr, op.size), act.w); }
    PerformBytes(start, s, t, act, x);
    if Area(x) == Area(op.addr) {
      PendingInside(s, t, x);
      LocksStep(s, t, act);
      PendingInside(s', t, x);
    } else {
      if op.addr <= x < op.addr + op.size { SameArea(op.addr, op.size, x); }
      PendingElsewhere(s, t, act, x);
    }
  }

  lemma MemoryStep(start: nat -> Byte, s: State, t: Thread, act: Action, x: nat)
    requires Inv(start, s) && Can(s, t, act)
    ensures Apply(s, t, act).memory(x) == Expected(start, Apply(s, t, act), x)
  {
    hide Apply, Can, ByteAt, Area, Pending, Locks, Accounted, Newest, Faithful;
    if act.Perform? {
      PerformMemory(start, s, t, act, x);
    } else if act.TakeB? {
      TakeMemory(start, s, t, x);
    } else {
      PendingSame(s, t, act, x);
      QuietStep(start, s, t, act, x);
    }
  }

  // -------------------------------------------------------------------- logs

  ghost predicate Matched(events: map<nat, Event>, e: Entry)
  {
    e.index in events &&
    match e.kind
    case AtomicRead =>
      events[e.index].ReadEvent? && events[e.index].addr == e.addr && events[e.index].size == e.size
    case AtomicWrite =>
      events[e.index].WriteEvent? && events[e.index].addr == e.addr && |events[e.index].data| == e.size
    case FenceEntry => events[e.index] == FenceEvent(e.addr)
    case SyncEntry => events[e.index] == SyncEvent
  }

  ghost predicate AllMatched(events: map<nat, Event>, log: seq<Entry>)
  {
    forall k :: 0 <= k < |log| ==> Matched(events, log[k])
  }

  ghost predicate ThreadMatched(s: State, t: Thread)
  {
    && AllMatched(s.events, LogOf(s, t))
    && (PhaseOf(s, t).Logging? ==> AllMatched(s.events, PhaseOf(s, t).rest) && 1 <= |PhaseOf(s, t).rest| <= 2)
    && (PhaseOf(s, t).Creating? ==> PhaseOf(s, t).index in s.events && s.events[PhaseOf(s, t).index] == SyncEvent)
  }

  /** Every entry, logged or about to be, tells what happened at its index. */
  ghost predicate LogsMatch(s: State)
  {
    forall t: Thread :: ThreadMatched(s, t)
  }

  ghost predicate Extends(before: map<nat, Event>, after: map<nat, Event>)
  {
    forall i: nat :: i in before ==> i in after && after[i] == before[i]
  }

  lemma EventsExtend(start: nat -> Byte, s: State, t: Thread, act: Action)
    requires Inv(start, s) && Can(s, t, act)
    ensures Extends(s.events, Apply(s, t, act).events)
  {
    hide Apply, Inv, Can;
    StepEvents(s, t, act);
    if Recorded(s, t, act).Some? { RecordedBehind(start, s, t, act); }
  }

  lemma MatchedExtends(before: map<nat, Event>, after: map<nat, Event>, log: seq<Entry>)
    requires Extends(before, after) && AllMatched(before, log)
    ensures AllMatched(after, log)
  {
    forall k | 0 <= k < |log| ensures Matched(after, log[k]) { assert Matched(before, log[k]); }
  }

  lemma ReleaseMatched(start: nat -> Byte, s: State, t: Thread)
    requires Inv(start, s) && Can(s, t, Release)
    ensures
      var p := PhaseOf(s, t);
      var log := Entries(p.op, p.idxA.value, p.idxB);
      1 <= |log| <= 2 && AllMatched(s.events, log)
  {
    hide Area, Faithful, Expected, Accounted;
    var p := PhaseOf(s, t);
    assert Newest(s, t) && HasA(s, t);
    if p.idxB.Some? { WrittenSize(p.op, p.seen, p.w); }
    FirstMatched(s.events, p.op, p.seen, p.w, p.idxA.value);
  }

  lemma FirstMatched(events: map<nat, Event>, op: Op, seen: seq<Byte>, w: Option<seq<Byte>>, a: nat)
    requires ValidOp(op) && |seen| == op.size && a in events && events[a] == FirstEvent(op, seen, w)
    ensures Matched(events, Entries(op, a, None)[0])
  {
  }

  lemma OwnMatched(start: nat -> Byte, s: State, t: Thread, act: Action)
    requires Inv(start, s) && ThreadMatched(s, t) && Can(s, t, act)
    ensures ThreadMatched(Apply(s, t, act), t)
  {
    hide Inv, Area, IdxA, Entries, FirstEvent, ReadBytes, WriteBytes, Extends, Outcome, ValidOp, TwoIndices;
    var p, s' := PhaseOf(s, t), Apply(s, t, act);
    EventsExtend(start, s, t, act);
    MatchedExtends(s.events, s'.events, LogOf(s, t));
    if act.Release? {
      ReleaseMatched(start, s, t);
    } else if act.Append? {
      MatchedExtends(s.events, s'.events, p.rest);
    }
  }

  lemma LogsStep(start: nat -> Byte, s: State, t: Thread, act: Action)
    requires Inv(start, s) && LogsMatch(s) && Can(s, t, act)
    ensures LogsMatch(Apply(s, t, act))
  {
    hide Inv, Apply, Can, AllMatched;
    var s' := Apply(s, t, act);
    forall u: Thread ensures ThreadMatched(s', u) {
      assert ThreadMatched(s, u);
      if u == t {
        OwnMatched(start, s, t, act);
      } else {
        StepFrame(s, t, act, u);
        EventsExtend(start, s, t, act);
        MatchedExtends(s.events, s'.events, LogOf(s, u));
        if PhaseOf(s, u).Logging? { MatchedExtends(s.events, s'.events, PhaseOf(s, u).rest); }
      }
    }
  }

  // --------------------------------------------------------------- all runs

  lemma InvStep(start: nat -> Byte, s: State, t: Thread, act: Action)
    requires Inv(start, s) && Can(s, t, act)
    ensures Inv(start, Apply(s, t, act))
  {
    hide Apply, Can, Faithful, Newest, Expected, Locks, Accounted, PhasesValid;
    var s' := Apply(s, t, act);
    LocksStep(s, t, act);
    AccountedStep(s, t, act);
    PhasesValidStep(s, t, act);
    forall i: nat | i in s'.events ensures i < s'.counter && Faithful(start, s'.events, i) {
      FaithfulStep(start, s, t, act, i);
    }
    forall u: Thread | Inside(s', u) ensures Newest(s', u) { NewestStep(start, s, t, act, u); }
    forall x: nat ensures s'.memory(x) == Expected(start, s', x) { MemoryStep(start, s, t, act, x); }
  }

  /** A run: any interleaving of the steps of any number of threads. */
  ghost predicate Run(states: seq<State>, steps: seq<(Thread, Action)>)
  {
    && |states| == |steps| + 1 && Init(states[0])
    && forall i :: 0 <= i < |steps| ==> Stepped(states[i], states[i + 1], steps[i])
  }

  ghost predicate Stepped(s: State, s': State, step: (Thread, Action))
  {
    Can(s, step.0, step.1) && s' == Apply(s, step.0, step.1)
  }

  lemma InitInv(s: State)
    requires Init(s)
    ensures Inv(s.memory, s) && LogsMatch(s)
  {
  }

  lemma {:induction false} RunInv(states: seq<State>, steps: seq<(Thread, Action)>, i: nat)
    requires Run(states, steps) && i < |states|
    ensures Inv(states[0].memory, states[i]) && LogsMatch(states[i])
  {
    hide Inv, LogsMatch, Apply, Can;
    if i == 0 {
      InitInv(states[0]);
    } else {
      RunInv(states, steps, i - 1);
      var s := states[i - 1];
      var (t, act) := steps[i - 1];
      assert Stepped(states[i - 1], states[i - 1 + 1], steps[i - 1]);
      InvStep(states[0].memory, s, t, act);
      LogsStep(states[0].memory, s, t, act);
    }
  }

  ghost predicate Logged(s: State, e: Entry)
  {
    exists t: Thread :: e in LogOf(s, t)
  }

  /** Replay: in every state of every run, what is logged as an atomic read saw exactly the bytes
      that replaying the atomic writes in index order gives. */
  lemma ReadsReplay(states: seq<State>, steps: seq<(Thread, Action)>, i: nat, e: Entry)
    requires Run(states, steps) && i < |states| && Logged(states[i], e) && e.kind == AtomicRead
    ensures
      var events := states[i].events;
      && e.index in events && events[e.index].ReadEvent?
      && events[e.index].addr == e.addr && events[e.index].size == e.size == |events[e.index].value|
      && forall k :: 0 <= k < e.size ==>
           events[e.index].value[k] == ByteAt(states[0].memory, events, e.addr + k, e.index)
  {
    hide ByteAt, Newest, Expected, Locks, Accounted;
    RunInv(states, steps, i);
    var t: Thread :| e in LogOf(states[i], t);
    assert ThreadMatched(states[i], t);
    assert Matched(states[i].events, e);
    assert Faithful(states[0].memory, states[i].events, e.index);
  }

  /** Updates are atomic: nothing of their area falls between their two indices. */
  lemma UpdatesAtomic(states: seq<State>, steps: seq<(Thread, Action)>, i: nat, b: nat)
    requires Run(states, steps) && i < |states|
    requires b in states[i].events && states[i].events[b].WriteEvent? && states[i].events[b].from.Some?
    ensures Adjacent(states[i].events, states[i].events[b].from.value, b)
  {
    hide ByteAt, Newest, Expected, Locks, Accounted;
    RunInv(states, steps, i);
    assert Faithful(states[0].memory, states[i].events, b);
  }

  ghost predicate Quiescent(s: State)
  {
    forall t: Thread :: PhaseOf(s, t).Idle?
  }

  /** When all threads are idle, memory is what the replay of everything gives. */
  lemma FinalMemory(states: seq<State>, steps: seq<(Thread, Action)>, i: nat, x: nat)
    requires Run(states, steps) && i < |states| && Quiescent(states[i])
    ensures states[i].memory(x) == ByteAt(states[0].memory, states[i].events, x, states[i].counter)
  {
    hide ByteAt, Newest, Locks, Accounted, Faithful;
    RunInv(states, steps, i);
    var s := states[i];
    assert s.memory(x) == Expected(states[0].memory, s, x);
    if Area(x) in s.holder { assert PhaseOf(s, s.holder[Area(x)]).Idle?; }
  }

  /** Each thread logs increasing indices. */
  lemma LogsIncrease(states: seq<State>, steps: seq<(Thread, Action)>, i: nat, t: Thread)
    requires Run(states, steps) && i < |states|
    ensures Increasing(LogIndices(LogOf(states[i], t)))
  {
    RunInv(states, steps, i);
    var q, l := Indices(states[i], t), LogIndices(LogOf(states[i], t));
    assert Increasing(q);
    assert forall k :: 0 <= k < |l| ==> l[k] == q[k];
  }

  /** No index is logged twice, by one thread or by two. */
  lemma IndicesUnique(states: seq<State>, steps: seq<(Thread, Action)>, i: nat, t: Thread, j: nat, u: Thread, k: nat)
    requires Run(states, steps) && i < |states|
    requires j < |LogOf(states[i], t)| && k < |LogOf(states[i], u)|
    requires LogOf(states[i], t)[j].index == LogOf(states[i], u)[k].index
    ensures t == u && j == k
  {
    hide Newest, Expected, Locks, Faithful;
    RunInv(states, steps, i);
    var s := states[i];
    assert Indices(s, t)[j] == LogOf(s, t)[j].index && Indices(s, u)[k] == LogOf(s, u)[k].index;
    assert Taken(s, t, LogOf(s, t)[j].index) && Taken(s, u, LogOf(s, u)[k].index);
    LogsIncrease(states, steps, i, t);
  }

  /** When all threads are idle, the logged indices are exactly those below the counter, and the
      entry logged at each tells what happened there. */
  lemma IndicesComplete(states: seq<State>, steps: seq<(Thread, Action)>, i: nat, n: nat)
    requires Run(states, steps) && i < |states| && Quiescent(states[i])
    ensures n < states[i].counter <==> exists e :: Logged(states[i], e) && e.index == n
    ensures n in states[i].events <==> n < states[i].counter
  {
    hide Newest, Expected, Locks, Faithful, Accounted, ThreadMatched, Logged;
    RunInv(states, steps, i);
    var s := states[i];
    if n < s.counter { var e := TakenIsLogged(s, n); }
    forall e | Logged(s, e) && e.index == n ensures n < s.counter { LoggedIsTaken(s, e); }
  }

  /** When no thread is inside an operation, an index that was taken is that of an entry, and of an event. */
  lemma TakenIsLogged(s: State, n: nat) returns (e: Entry)
    requires Accounted(s) && LogsMatch(s) && Quiescent(s) && n < s.counter
    ensures Logged(s, e) && e.index == n && n in s.events
  {
    hide Increasing, Below;
    assert Owned(s, n);
    var t: Thread :| Taken(s, t, n);
    assert PhaseOf(s, t).Idle? && HeldIndices(s, t) == [];
    var k :| 0 <= k < |Indices(s, t)| && Indices(s, t)[k] == n;
    e := LogOf(s, t)[k];
    assert e in LogOf(s, t) && ThreadMatched(s, t);
    assert Matched(s.events, e);
  }

  lemma LoggedIsTaken(s: State, e: Entry)
    requires Accounted(s) && Logged(s, e)
    ensures e.index < s.counter
  {
    hide Increasing, Owned, Taken;
    var t: Thread :| e in LogOf(s, t);
    var k :| 0 <= k < |LogOf(s, t)| && LogOf(s, t)[k] == e;
    assert Indices(s, t)[k] == e.index && Below(Indices(s, t), s.counter);
  }

  // --------------------------------------------------------------- progress

  ghost predicate Finishing(act: Action)
  {
    !act.Begin? && !act.Sync? && !act.CreateBegin?
  }

  ghost predicate Moves(s: State, t: Thread)
  {
    exists act :: Finishing(act) && Can(s, t, act)
  }

  ghost predicate Free(s: State, t: Thread)
  {
    var p := PhaseOf(s, t);
    p.Locked? || p.Fetched? || p.Done? || (p.Logging? && p.rest != []) || p.Creating?
  }

  lemma FreeMoves(s: State, t: Thread)
    requires Free(s, t)
    ensures Moves(s, t)
  {
    var p := PhaseOf(s, t);
    match p
    case Locked(_) => assert Can(s, t, FetchA);
    case Fetched(op) =>
      var seen := ReadBytes(s.memory, op.addr, op.size);
      var w := match op.kind
        case Store(data) => Some(data)
        case Update(f) => Some(f(seen))
        case _ => None;
      assert Can(s, t, Perform(w));
    case Done(op, _, w, a, b) =>
      if a.None? {
        assert Can(s, t, ReadA);
      } else if TwoIndices(op, w) && b.None? {
        assert Can(s, t, TakeB);
      } else {
        assert Can(s, t, Release);
      }
    case Logging(_) => assert Can(s, t, Append);
    case Creating(_) => assert Can(s, t, CreateEnd(0));
    case _ =>
  }

  /** No deadlock: in every state of every run a thread that has begun something can go on, or
      waits for one area whose holder can. */
  lemma NoDeadlock(states: seq<State>, steps: seq<(Thread, Action)>, i: nat, t: Thread)
    requires Run(states, steps) && i < |states| && !PhaseOf(states[i], t).Idle?
    ensures
      var s := states[i];
      Moves(s, t) ||
      (PhaseOf(s, t).Waiting? && exists u: Thread :: HeldBy(s, Area(PhaseOf(s, t).op.addr), u) && Moves(s, u))
  {
    hide Newest, Expected, Faithful, Accounted, ByteAt, Area;
    RunInv(states, steps, i);
    var s := states[i];
    var p := PhaseOf(s, t);
    assert ThreadMatched(s, t);
    if p.Waiting? {
      var r := Area(p.op.addr);
      if r in s.holder {
        var u := s.holder[r];
        assert HeldBy(s, r, u) && InArea(PhaseOf(s, u), r);
        FreeMoves(s, u);
      } else {
        assert Can(s, t, Acquire);
      }
    } else {
      FreeMoves(s, t);
    }
  }

  /** A thread holds at most one area. */
  lemma OneLock(states: seq<State>, steps: seq<(Thread, Action)>, i: nat, t: Thread, r: nat, k: nat)
    requires Run(states, steps) && i < |states| && HeldBy(states[i], r, t) && HeldBy(states[i], k, t)
    ensures r == k
  {
    hide Newest, Expected, Faithful, Accounted, ByteAt, Area;
    RunInv(states, steps, i);
    assert InArea(PhaseOf(states[i], t), r) && InArea(PhaseOf(states[i], t), k);
  }

  function Left(p: Phase): nat
  {
    match p
    case Idle => 0
    case Waiting(_) => 9
    case Locked(_) => 8
    case Fetched(_) => 7
    case Done(_, _, _, a, b) => 4 + (if a.None? then 1 else 0) + (if b.None? then 1 else 0)
    case Logging(rest) => |rest|
    case Creating(_) => 1
  }

  lemma FinishingStep(s: State, t: Thread, act: Action)
    requires Can(s, t, act) && Finishing(act)
    ensures Left(PhaseOf(Apply(s, t, act), t)) < Left(PhaseOf(s, t))
  {
    hide Area, IdxA, ReadBytes, WriteBytes, FirstEvent, Outcome, TwoIndices;
  }

  /** How many of the steps from `i` to below `j` thread `t` takes. */
  ghost function StepsOf(steps: seq<(Thread, Action)>, t: Thread, i: nat, j: nat): nat
    requires i <= j <= |steps|
  {
    if i == j then 0 else StepsOf(steps, t, i, j - 1) + if steps[j - 1].0 == t then 1 else 0
  }

  /** In every run, as long as a thread begins nothing new, it takes at most nine steps: what it has
      begun it finishes. */
  lemma {:induction false} FinishesSoon(states: seq<State>, steps: seq<(Thread, Action)>, t: Thread, i: nat, j: nat)
    requires Run(states, steps) && i <= j < |states|
    requires forall k :: i <= k < j && steps[k].0 == t ==> Finishing(steps[k].1)
    ensures StepsOf(steps, t, i, j) + Left(PhaseOf(states[j], t)) <= Left(PhaseOf(states[i], t)) <= 9
    decreases j
  {
    hide Apply, Can, Left, Inv, AllMatched, Finishing;
    if i == j {
      RunInv(states, steps, i);
      assert ThreadMatched(states[i], t);
      LeftBound(states[i], t);
    } else {
      FinishesSoon(states, steps, t, i, j - 1);
      assert Stepped(states[j - 1], states[j - 1 + 1], steps[j - 1]);
      var (u, act) := steps[j - 1];
      if u == t { FinishingStep(states[j - 1], t, act); } else { StepFrame(states[j - 1], u, act, t); }
    }
  }

  lemma LeftBound(s: State, t: Thread)
    requires ThreadMatched(s, t)
    ensures Left(PhaseOf(s, t)) <= 9
  {
  }
}
