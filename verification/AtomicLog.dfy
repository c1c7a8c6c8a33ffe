/** What the threads of a run log, told from the steps they take: every operation its entries, every
    index the number of indices taken before it. */
module AtomicLog {
  import opened Bytes
  import opened AtomicIndex
  import opened AtomicReplay

  /** How many of the first `n` steps, of any thread, take an index. */
  ghost function TakenBy(steps: seq<(Thread, Action)>, n: nat): nat
    requires n <= |steps|
  {
    if n == 0 then 0
    else
      var act := steps[n - 1].1;
      TakenBy(steps, n - 1) + if act.FetchA? || act.TakeB? || act.Sync? || act.CreateBegin? then 1 else 0
  }

  /** The entries of an operation that wrote `w`: a load and a compare-exchange that fails are a read, a
      store is a write, every other operation on memory is both, a fence is neither. */
  ghost function LogEntries(op: Op, w: Option<seq<Byte>>, a: nat, b: nat): seq<Entry>
  {
    var read, write := Entry(AtomicRead, op.addr, op.size, a), Entry(AtomicWrite, op.addr, op.size, b);
    match op.kind
    case Load => [read]
    case Store(_) => [write.(index := a)]
    case Update(_) => [read, write]
    case Compare(_, _) => if w.Some? then [read, write] else [read]
    case Fence => [Entry(FenceEntry, op.addr, 0, a)]
  }

  /** What a thread is in the middle of: an operation, with the indices it has taken and what it wrote,
      or the creation of a thread. */
  datatype Doing = Nothing | Doing(op: Op, a: nat, w: Option<seq<Byte>>, b: nat) | Birth(index: nat)

  /** What a thread has logged or is about to. */
  datatype View = View(out: seq<Entry>, doing: Doing)

  /** One step more, when `next` is the next index. */
  ghost function ViewStep(v: View, act: Action, next: nat): View
  {
    match act
    case Begin(op) => v.(doing := Doing(op, 0, None, 0))
    case FetchA => if v.doing.Doing? then v.(doing := v.doing.(a := next)) else v
    case Perform(w) => if v.doing.Doing? then v.(doing := v.doing.(w := w)) else v
    case TakeB => if v.doing.Doing? then v.(doing := v.doing.(b := next)) else v
    case Release =>
      if v.doing.Doing? then View(v.out + LogEntries(v.doing.op, v.doing.w, v.doing.a, v.doing.b), Nothing) else v
    case Sync(obj) => v.(out := v.out + [Entry(SyncEntry, obj, 0, next)])
    case CreateBegin => v.(doing := Birth(next))
    case CreateEnd(obj) =>
      if v.doing.Birth? then View(v.out + [Entry(SyncEntry, obj, 0, v.doing.index)], Nothing) else v
    case _ => v
  }

  /** The steps of thread `t` among the first `n` of a run. */
  ghost function ViewAt(steps: seq<(Thread, Action)>, t: Thread, n: nat): View
    requires n <= |steps|
  {
    if n == 0 then View([], Nothing)
    else
      var v := ViewAt(steps, t, n - 1);
      if steps[n - 1].0 == t then ViewStep(v, steps[n - 1].1, TakenBy(steps, n - 1)) else v
  }

  /** The state of the thread is the one its steps lead to. */
  ghost predicate Agrees(s: State, t: Thread, v: View)
  {
    var p, d := PhaseOf(s, t), v.doing;
    && v.out == LogOf(s, t) + (if p.Logging? then p.rest else [])
    && match p
       case Idle => d.Nothing?
       case Logging(_) => d.Nothing?
       case Creating(i) => d == Birth(i)
       case Waiting(op) => d.Doing? && d.op == op && d.w == None
       case Locked(op) => d.Doing? && d.op == op && d.w == None
       case Fetched(op) => d.Doing? && d.op == op && d.w == None && d.a == IdxA(s, Area(op.addr))
       case Done(op, _, w, _, b) =>
         && d.Doing? && d.op == op && d.w == w && d.a == IdxA(s, Area(op.addr))
         && (b.Some? ==> TwoIndices(op, w) && d.b == b.value)
  }

  lemma OtherAgrees(start: nat -> Byte, s: State, t: Thread, act: Action, u: Thread, v: View)
    requires Inv(start, s) && Can(s, t, act) && u != t && Agrees(s, u, v)
    ensures Agrees(Apply(s, t, act), u, v)
  {
    hide Apply, Can, Area, Newest, Faithful, Expected, Locks, Accounted, TwoIndices;
    StepFrame(s, t, act, u);
    if Inside(s, u) { SlotStays(s, t, act, u); }
  }

  /** The entries a release leaves to be logged are those of the operation. */
  lemma ReleasedEntries(op: Op, seen: seq<Byte>, w: Option<seq<Byte>>, a: nat, b: Option<nat>, n: nat)
    requires Outcome(op, seen, w) && (b.Some? <==> TwoIndices(op, w)) && (b.Some? ==> n == b.value)
    ensures Entries(op, a, b) == LogEntries(op, w, a, n)
  {
  }

  ghost predicate Inner(act: Action)
  {
    act.Begin? || act.Acquire? || act.FetchA? || act.Perform? || act.ReadA? || act.TakeB?
  }

  /** Inside an operation nothing is logged. */
  lemma InnerAgrees(s: State, t: Thread, act: Action, v: View)
    requires Can(s, t, act) && Agrees(s, t, v) && Inner(act)
    ensures Agrees(Apply(s, t, act), t, ViewStep(v, act, s.counter))
  {
    hide Area, FirstEvent, ReadBytes, WriteBytes, Outcome, ValidOp;
  }

  lemma SyncAgrees(s: State, t: Thread, act: Action, v: View)
    requires Can(s, t, act) && Agrees(s, t, v) && (act.Sync? || act.CreateBegin? || act.CreateEnd?)
    ensures Agrees(Apply(s, t, act), t, ViewStep(v, act, s.counter))
  {
    hide Area;
  }

  lemma LoggingAgrees(start: nat -> Byte, s: State, t: Thread, act: Action, v: View)
    requires Inv(start, s) && Can(s, t, act) && Agrees(s, t, v) && (act.Release? || act.Append?)
    ensures Agrees(Apply(s, t, act), t, ViewStep(v, act, s.counter))
  {
    hide Area, Entries, LogEntries, Outcome, ValidOp, Inv, TwoIndices;
    var p := PhaseOf(s, t);
    if act.Release? {
      ReleaseFacts(start, s, t);
      ReleasedEntries(p.op, p.seen, p.w, p.idxA.value, p.idxB, v.doing.b);
    } else {
      assert LogOf(s, t) + p.rest == LogOf(s, t) + [p.rest[0]] + p.rest[1..];
    }
  }

  lemma OwnAgrees(start: nat -> Byte, s: State, t: Thread, act: Action, v: View)
    requires Inv(start, s) && Can(s, t, act) && Agrees(s, t, v)
    ensures Agrees(Apply(s, t, act), t, ViewStep(v, act, s.counter))
  {
    hide Inv, Can, Apply, Agrees, ViewStep;
    if Inner(act) {
      InnerAgrees(s, t, act, v);
    } else if act.Release? || act.Append? {
      LoggingAgrees(start, s, t, act, v);
    } else {
      SyncAgrees(s, t, act, v);
    }
  }

  lemma ReleaseFacts(start: nat -> Byte, s: State, t: Thread)
    requires Inv(start, s) && Can(s, t, Release)
    ensures
      var p := PhaseOf(s, t);
      && Outcome(p.op, p.seen, p.w) && p.idxA.value == IdxA(s, Area(p.op.addr))
      && (p.idxB.Some? <==> TwoIndices(p.op, p.w))
  {
    hide Area, Faithful, Expected, Accounted, FirstEvent;
    assert Newest(s, t) && HasA(s, t);
  }

  lemma {:induction false} CounterCounts(states: seq<State>, steps: seq<(Thread, Action)>, i: nat)
    requires Run(states, steps) && i < |states|
    ensures states[i].counter == TakenBy(steps, i)
  {
    hide Apply, Can;
    if i > 0 {
      CounterCounts(states, steps, i - 1);
      assert Stepped(states[i - 1], states[i - 1 + 1], steps[i - 1]);
      StepCounter(states[i - 1], steps[i - 1].0, steps[i - 1].1);
    }
  }

  lemma {:induction false} RunAgrees(states: seq<State>, steps: seq<(Thread, Action)>, i: nat, t: Thread)
    requires Run(states, steps) && i < |states|
    ensures Agrees(states[i], t, ViewAt(steps, t, i))
  {
    hide Apply, Can, Inv, Agrees, ViewStep, LogsMatch;
    if i == 0 {
      StartAgrees(states[0], t);
    } else {
      RunAgrees(states, steps, i - 1, t);
      RunInv(states, steps, i - 1);
      CounterCounts(states, steps, i - 1);
      assert Stepped(states[i - 1], states[i - 1 + 1], steps[i - 1]);
      var s, v := states[i - 1], ViewAt(steps, t, i - 1);
      var (u, act) := steps[i - 1];
      if u == t {
        OwnAgrees(states[0].memory, s, t, act, v);
      } else {
        OtherAgrees(states[0].memory, s, u, act, t, v);
      }
    }
  }

  lemma StartAgrees(s: State, t: Thread)
    requires Init(s)
    ensures Agrees(s, t, View([], Nothing))
  {
  }

  /** In every run the log of every thread is, in order, the entries of the operations it has released
      and of its synchronisation calls, but for those not appended yet. Each has the index that was
      next when it was taken. When the thread is idle its log is all of them. */
  lemma LogsProjected(states: seq<State>, steps: seq<(Thread, Action)>, i: nat, t: Thread)
    requires Run(states, steps) && i < |states|
    ensures
      var log, out := LogOf(states[i], t), ViewAt(steps, t, i).out;
      log <= out && (PhaseOf(states[i], t).Idle? ==> log == out)
    ensures states[i].counter == TakenBy(steps, i)
  {
    RunAgrees(states, steps, i, t);
    CounterCounts(states, steps, i);
  }

  // ------------------------------------------------------- what can happen

  /** A thread that has begun an operation waits exactly for a thread inside one in the same of the 128
      areas of 64-byte lines. */
  lemma WaitsForArea(states: seq<State>, steps: seq<(Thread, Action)>, i: nat, t: Thread)
    requires Run(states, steps) && i < |states| && PhaseOf(states[i], t).Waiting?
    ensures
      var s := states[i];
      Can(s, t, Acquire) <==>
        forall u: Thread :: PhaseOf(s, u).Locked? || PhaseOf(s, u).Fetched? || PhaseOf(s, u).Done? ==>
          PhaseOf(s, u).op.addr / 64 % 128 != PhaseOf(s, t).op.addr / 64 % 128
  {
    hide Newest, Expected, Faithful, Accounted, ByteAt;
    RunInv(states, steps, i);
    var s := states[i];
    var r := Area(PhaseOf(s, t).op.addr);
    if r in s.holder { assert HeldBy(s, r, s.holder[r]) && InArea(PhaseOf(s, s.holder[r]), r); }
    forall u: Thread | InArea(PhaseOf(s, u), r) ensures r in s.holder { assert HeldBy(s, r, u); }
  }

  /** What an operation may write when it finds `seen`. */
  ghost predicate Possible(op: Op, seen: seq<Byte>, w: Option<seq<Byte>>)
  {
    match op.kind
    case Load => w == None
    case Store(data) => w == Some(data)
    case Update(f) => w == Some(f(seen))
    case Compare(expected, desired) => w == None || (seen == expected && w == Some(desired))
    case Fence => w == None
  }

  /** The steps of a whole operation, from taking the lock to releasing it. */
  ghost function Course(op: Op, w: Option<seq<Byte>>): seq<Action>
  {
    [Begin(op), Acquire, FetchA, Perform(w), ReadA] +
    (if w.Some? && !op.kind.Store? then [TakeB, Release, Append, Append] else [Release, Append])
  }

  /** A thread can take these steps one after the other. */
  ghost predicate Follows(s: State, t: Thread, acts: seq<Action>, s': State)
    decreases |acts|
  {
    if acts == [] then s' == s
    else Can(s, t, acts[0]) && Follows(Apply(s, t, acts[0]), t, acts[1..], s')
  }

  lemma TakeLock(s: State, t: Thread, op: Op) returns (s': State)
    requires PhaseOf(s, t).Idle? && ValidOp(op) && Area(op.addr) !in s.holder
    ensures Follows(s, t, [Begin(op), Acquire], s') && PhaseOf(s', t) == Locked(op)
    ensures LogOf(s', t) == LogOf(s, t) && s'.counter == s.counter && s'.memory == s.memory
  {
    hide Area, ValidOp;
    var s1 := Apply(s, t, Begin(op));
    s' := Apply(s1, t, Acquire);
    FollowsOne(s1, t, Acquire, [], s');
    FollowsOne(s, t, Begin(op), [Acquire], s');
    assert [Begin(op)] + [Acquire] == [Begin(op), Acquire] && [Acquire] + [] == [Acquire];
  }

  lemma UseLock(s: State, t: Thread, op: Op, w: Option<seq<Byte>>) returns (s': State)
    requires PhaseOf(s, t) == Locked(op) && Possible(op, ReadBytes(s.memory, op.addr, op.size), w)
    ensures Follows(s, t, [FetchA, Perform(w), ReadA], s')
    ensures PhaseOf(s', t) == Done(op, ReadBytes(s.memory, op.addr, op.size), w, Some(s.counter), None)
    ensures LogOf(s', t) == LogOf(s, t) && s'.counter == s.counter + 1
    ensures s'.memory == if w.Some? then WriteBytes(s.memory, op.addr, w.value) else s.memory
  {
    hide ReadBytes, WriteBytes, Area, FirstEvent;
    var s1 := Apply(s, t, FetchA);
    assert PhaseOf(s1, t) == Fetched(op) && IdxA(s1, Area(op.addr)) == s.counter;
    var s2 := Apply(s1, t, Perform(w));
    s' := Apply(s2, t, ReadA);
    FollowsOne(s2, t, ReadA, [], s');
    FollowsOne(s1, t, Perform(w), [ReadA], s');
    FollowsOne(s, t, FetchA, [Perform(w), ReadA], s');
    assert [FetchA] + [Perform(w), ReadA] == [FetchA, Perform(w), ReadA];
    assert [Perform(w)] + [ReadA] == [Perform(w), ReadA] && [ReadA] + [] == [ReadA];
  }

  /** The state in the middle of an operation. */
  lemma FirstHalf(s: State, t: Thread, op: Op, w: Option<seq<Byte>>) returns (s': State)
    requires PhaseOf(s, t).Idle? && ValidOp(op) && Area(op.addr) !in s.holder
    requires Possible(op, ReadBytes(s.memory, op.addr, op.size), w)
    ensures Follows(s, t, [Begin(op), Acquire, FetchA, Perform(w), ReadA], s')
    ensures
      var seen := ReadBytes(s.memory, op.addr, op.size);
      && PhaseOf(s', t) == Done(op, seen, w, Some(s.counter), None) && LogOf(s', t) == LogOf(s, t)
      && s'.counter == s.counter + 1
      && s'.memory == (if w.Some? then WriteBytes(s.memory, op.addr, w.value) else s.memory)
  {
    hide Follows, Possible, ValidOp, Area, ReadBytes, WriteBytes;
    var m := TakeLock(s, t, op);
    s' := UseLock(m, t, op, w);
    FollowsJoin(s, t, [Begin(op), Acquire], m, [FetchA, Perform(w), ReadA], s');
    assert [Begin(op), Acquire] + [FetchA, Perform(w), ReadA] == [Begin(op), Acquire, FetchA, Perform(w), ReadA];
  }

  lemma FollowsOne(s: State, t: Thread, act: Action, acts: seq<Action>, s': State)
    requires Can(s, t, act) && Follows(Apply(s, t, act), t, acts, s')
    ensures Follows(s, t, [act] + acts, s')
  {
    hide Apply, Can;
    assert ([act] + acts)[1..] == acts;
  }

  lemma {:induction false} FollowsJoin(s: State, t: Thread, a: seq<Action>, m: State, b: seq<Action>, s': State)
    requires Follows(s, t, a, m) && Follows(m, t, b, s')
    ensures Follows(s, t, a + b, s')
    decreases |a|
  {
    hide Apply, Can;
    if a == [] {
      assert a + b == b;
    } else {
      FollowsJoin(Apply(s, t, a[0]), t, a[1..], m, b, s');
      assert (a + b)[1..] == a[1..] + b;
    }
  }

  /** The end of an operation with one index. */
  lemma ReadHalf(s: State, t: Thread) returns (s': State)
    requires
      var p := PhaseOf(s, t);
      p.Done? && p.idxA.Some? && p.idxB.None? && !TwoIndices(p.op, p.w)
    ensures Follows(s, t, [Release, Append], s')
    ensures
      var p := PhaseOf(s, t);
      PhaseOf(s', t).Idle? && LogOf(s', t) == LogOf(s, t) + Entries(p.op, p.idxA.value, None) && s'.memory == s.memory
  {
    hide Area;
    var s1 := Apply(s, t, Release);
    s' := Apply(s1, t, Append);
    FollowsOne(s1, t, Append, [], s');
    FollowsOne(s, t, Release, [Append], s');
    assert [Release] + [Append] == [Release, Append] && [Append] + [] == [Append];
  }

  /** The end of one with two. */
  lemma WriteHalf(s: State, t: Thread) returns (s': State)
    requires
      var p := PhaseOf(s, t);
      p.Done? && p.idxA.Some? && p.idxB.None? && TwoIndices(p.op, p.w)
    ensures Follows(s, t, [TakeB, Release, Append, Append], s')
    ensures
      var p := PhaseOf(s, t);
      && PhaseOf(s', t).Idle? && s'.memory == s.memory
      && LogOf(s', t) == LogOf(s, t) + Entries(p.op, p.idxA.value, Some(s.counter))
  {
    hide Area;
    var s1 := Apply(s, t, TakeB);
    var s2 := Apply(s1, t, Release);
    assert PhaseOf(s1, t) == PhaseOf(s, t).(idxB := Some(s.counter)) && LogOf(s1, t) == LogOf(s, t);
    s' := AppendTwo(s2, t);
    FollowsOne(s1, t, Release, [Append, Append], s');
    FollowsOne(s, t, TakeB, [Release, Append, Append], s');
    assert [TakeB] + [Release, Append, Append] == [TakeB, Release, Append, Append];
    assert [Release] + [Append, Append] == [Release, Append, Append];
  }

  lemma AppendTwo(s: State, t: Thread) returns (s': State)
    requires PhaseOf(s, t).Logging? && |PhaseOf(s, t).rest| == 2
    ensures Follows(s, t, [Append, Append], s')
    ensures PhaseOf(s', t).Idle? && s'.memory == s.memory && LogOf(s', t) == LogOf(s, t) + PhaseOf(s, t).rest
  {
    var s1 := Apply(s, t, Append);
    s' := Apply(s1, t, Append);
    FollowsOne(s1, t, Append, [], s');
    FollowsOne(s, t, Append, [Append], s');
    assert [Append] + [Append] == [Append, Append] && [Append] + [] == [Append];
  }

  /** Whatever an operation may do to memory it can do: an idle thread whose area is free can run it from
      beginning to end, memory changes as it says, and its entries are logged with the next indices. */
  lemma WholeOperation(s: State, t: Thread, op: Op, w: Option<seq<Byte>>) returns (s': State)
    requires PhaseOf(s, t).Idle? && ValidOp(op) && Area(op.addr) !in s.holder
    requires Possible(op, ReadBytes(s.memory, op.addr, op.size), w)
    ensures Follows(s, t, Course(op, w), s') && PhaseOf(s', t).Idle?
    ensures LogOf(s', t) == LogOf(s, t) + LogEntries(op, w, s.counter, s.counter + 1)
    ensures s'.memory == if w.Some? then WriteBytes(s.memory, op.addr, w.value) else s.memory
  {
    hide ReadBytes, WriteBytes, Area, Follows, ValidOp, Can, Apply;
    var m := FirstHalf(s, t, op, w);
    var first := [Begin(op), Acquire, FetchA, Perform(w), ReadA];
    if w.Some? && !op.kind.Store? {
      s' := WriteHalf(m, t);
      FollowsJoin(s, t, first, m, [TakeB, Release, Append, Append], s');
    } else {
      s' := ReadHalf(m, t);
      FollowsJoin(s, t, first, m, [Release, Append], s');
    }
  }

  /** So can a synchronisation call, and the creation of a thread around the real call. */
  lemma WholeSync(s: State, t: Thread, obj: nat)
    requires PhaseOf(s, t).Idle?
    ensures
      && Can(s, t, Sync(obj))
      && var s' := Apply(s, t, Sync(obj));
      PhaseOf(s', t).Idle? && LogOf(s', t) == LogOf(s, t) + [Entry(SyncEntry, obj, 0, s.counter)]
    ensures
      && Can(s, t, CreateBegin)
      && var m := Apply(s, t, CreateBegin);
      && Can(m, t, CreateEnd(obj))
      && var s' := Apply(m, t, CreateEnd(obj));
      PhaseOf(s', t).Idle? && LogOf(s', t) == LogOf(s, t) + [Entry(SyncEntry, obj, 0, s.counter)]
  {
  }
}
