/** `subs_pthread.c` and `subs_sem.c`: where the index of an event is taken relative to the real
    call on the object. The trace is the sequence of all events in index order, seen from one
    object: what does not concern it is `Other`. */
module SyncObjects {
  import opened Bytes

  type Thread = nat

  // -------------------------------------- mutexes, spin locks, rwlocks

  datatype LockEvent = AcquireExc(t: Thread) | AcquireShr(t: Thread) | ReleaseBy(t: Thread) | Other

  /** Got: really held, not yet logged. In: logged. Leaving: release logged, still held. */
  datatype Stage = Got | In | Leaving

  datatype Counts = Counts(got: nat, inside: nat, leaving: nat)

  /** A lock and the threads that really hold it. Mutexes and spin locks are only taken
      exclusively. */
  datatype Lock = Lock(trace: seq<LockEvent>, exc: Option<(Thread, Stage)>, shr: map<Thread, Counts>)

  function Shares(s: Lock, t: Thread): Counts
  {
    if t in s.shr then s.shr[t] else Counts(0, 0, 0)
  }

  ghost predicate NoShares(s: Lock)
  {
    forall t: Thread :: Shares(s, t) == Counts(0, 0, 0)
  }

  /** The real calls (Take, Drop), the logging around them, and a condition wait that returns
      without having given up the mutex (Keep). A wait that does is a release and an acquire. */
  datatype LockAction = TakeExc | LogExc | UnlogExc | DropExc | Keep | TakeShr | LogShr | UnlogShr | DropShr | Elsewhere

  ghost predicate CanLock(s: Lock, t: Thread, act: LockAction)
  {
    match act
    case TakeExc => s.exc.None? && NoShares(s)
    case LogExc => s.exc == Some((t, Got))
    case UnlogExc => s.exc == Some((t, In))
    case DropExc => s.exc == Some((t, Leaving))
    case Keep => s.exc == Some((t, Leaving))
    case TakeShr => s.exc.None?
    case LogShr => Shares(s, t).got > 0
    case UnlogShr => Shares(s, t).inside > 0
    case DropShr => Shares(s, t).leaving > 0
    case Elsewhere => true
  }

  ghost function OnLock(s: Lock, t: Thread, act: LockAction): Lock
    requires CanLock(s, t, act)
  {
    var c := Shares(s, t);
    match act
    case TakeExc => s.(exc := Some((t, Got)))
    case LogExc => s.(exc := Some((t, In)), trace := s.trace + [AcquireExc(t)])
    case UnlogExc => s.(exc := Some((t, Leaving)), trace := s.trace + [ReleaseBy(t)])
    case DropExc => s.(exc := None)
    case Keep => s.(exc := Some((t, Got)))
    case TakeShr => s.(shr := s.shr[t := c.(got := c.got + 1)])
    case LogShr =>
      s.(shr := s.shr[t := c.(got := c.got - 1, inside := c.inside + 1)], trace := s.trace + [AcquireShr(t)])
    case UnlogShr =>
      s.(shr := s.shr[t := c.(inside := c.inside - 1, leaving := c.leaving + 1)], trace := s.trace + [ReleaseBy(t)])
    case DropShr => s.(shr := s.shr[t := c.(leaving := c.leaving - 1)])
    case Elsewhere => s.(trace := s.trace + [Other])
  }

  /** What the first `n` events of a trace say about who holds the lock. */
  datatype Held = Held(exc: Option<Thread>, shr: map<Thread, nat>)

  function HeldShares(h: Held, t: Thread): nat
  {
    if t in h.shr then h.shr[t] else 0
  }

  ghost function HeldAfter(trace: seq<LockEvent>, n: nat): Held
    requires n <= |trace|
  {
    if n == 0 then Held(None, map[])
    else
      var h := HeldAfter(trace, n - 1);
      match trace[n - 1]
      case AcquireExc(t) => h.(exc := Some(t))
      case AcquireShr(t) => h.(shr := h.shr[t := HeldShares(h, t) + 1])
      case ReleaseBy(t) =>
        if h.exc == Some(t) then h.(exc := None)
        else if HeldShares(h, t) > 0 then h.(shr := h.shr[t := HeldShares(h, t) - 1])
        else h
      case Other => h
  }

  /** The event at `n` is one a real lock allows in that order. */
  ghost predicate Allowed(trace: seq<LockEvent>, n: nat)
    requires n < |trace|
  {
    var h := HeldAfter(trace, n);
    match trace[n]
    case AcquireExc(_) => h.exc.None? && forall u: Thread :: HeldShares(h, u) == 0
    case AcquireShr(_) => h.exc.None?
    case ReleaseBy(t) => h.exc == Some(t) || HeldShares(h, t) > 0
    case Other => true
  }

  ghost predicate AllAllowed(trace: seq<LockEvent>)
  {
    forall n :: 0 <= n < |trace| ==> Allowed(trace, n)
  }

  ghost predicate LockInv(s: Lock)
  {
    var h := HeldAfter(s.trace, |s.trace|);
    && (s.exc.Some? ==> NoShares(s))
    && h.exc == (if s.exc.Some? && s.exc.value.1 == In then Some(s.exc.value.0) else None)
    && (forall t: Thread :: HeldShares(h, t) == Shares(s, t).inside)
    && AllAllowed(s.trace)
  }

  lemma {:induction false} HeldPrefix(trace: seq<LockEvent>, e: LockEvent, n: nat)
    requires n <= |trace|
    ensures HeldAfter(trace + [e], n) == HeldAfter(trace, n)
  {
    if n > 0 { HeldPrefix(trace, e, n - 1); }
  }

  /** A new event is allowed if the holders before it allow it; the others stay so. */
  lemma AllowedExtends(trace: seq<LockEvent>, e: LockEvent)
    requires AllAllowed(trace) && Allowed(trace + [e], |trace|)
    ensures AllAllowed(trace + [e])
  {
    hide HeldAfter;
    forall n | 0 <= n < |trace| ensures Allowed(trace + [e], n) {
      HeldPrefix(trace, e, n);
      assert Allowed(trace, n);
    }
  }

  lemma SharesStep(s: Lock, t: Thread, act: LockAction, u: Thread)
    requires CanLock(s, t, act)
    ensures
      var c, c' := Shares(s, u), Shares(OnLock(s, t, act), u);
      && (u != t ==> c' == c)
      && (!act.TakeShr? && !act.LogShr? && !act.UnlogShr? && !act.DropShr? ==> c' == c)
      && c'.inside == c.inside + (if u == t && act.LogShr? then 1 else 0) - (if u == t && act.UnlogShr? then 1 else 0)
  {
  }

  lemma SharedOnly(s: Lock, t: Thread)
    requires (s.exc.Some? ==> NoShares(s)) && Shares(s, t) != Counts(0, 0, 0)
    ensures s.exc.None?
  {
  }

  lemma ExclusiveAlone(s: Lock, t: Thread, act: LockAction)
    requires (s.exc.Some? ==> NoShares(s)) && CanLock(s, t, act)
    ensures OnLock(s, t, act).exc.Some? ==> NoShares(OnLock(s, t, act))
  {
    var s' := OnLock(s, t, act);
    if s'.exc.Some? {
      assert NoShares(s);
      forall u: Thread ensures Shares(s', u) == Counts(0, 0, 0) {
        assert Shares(s, u) == Shares(s, t) == Counts(0, 0, 0);
        SharesStep(s, t, act, u);
      }
    }
  }

  lemma LockStep(s: Lock, t: Thread, act: LockAction)
    requires LockInv(s) && CanLock(s, t, act)
    ensures LockInv(OnLock(s, t, act))
  {
    hide NoShares;
    var s' := OnLock(s, t, act);
    var n := |s.trace|;
    var h := HeldAfter(s.trace, n);
    ExclusiveAlone(s, t, act);
    forall u: Thread ensures HeldShares(HeldAfter(s'.trace, |s'.trace|), u) == Shares(s', u).inside {
      SharesStep(s, t, act, u);
      assert HeldShares(h, u) == Shares(s, u).inside && HeldShares(h, t) == Shares(s, t).inside;
      if s'.trace != s.trace { HeldPrefix(s.trace, s'.trace[n], n); }
    }
    if s'.trace != s.trace {
      HeldPrefix(s.trace, s'.trace[n], n);
      AllowedNow(s, t, act);
      if act.UnlogShr? { SharedOnly(s, t); }
      AllowedExtends(s.trace, s'.trace[n]);
    }
  }

  lemma AllowedNow(s: Lock, t: Thread, act: LockAction)
    requires LockInv(s) && CanLock(s, t, act) && OnLock(s, t, act).trace != s.trace
    ensures Allowed(OnLock(s, t, act).trace, |s.trace|)
  {
    hide HeldAfter;
    var s' := OnLock(s, t, act);
    HeldPrefix(s.trace, s'.trace[|s.trace|], |s.trace|);
    if act.LogExc? {
      forall u: Thread ensures HeldShares(HeldAfter(s.trace, |s.trace|), u) == 0 {
        assert Shares(s, u) == Counts(0, 0, 0);
      }
    } else if act.LogShr? {
      assert Shares(s, t) != Counts(0, 0, 0);
    } else if act.UnlogShr? {
      assert HeldShares(HeldAfter(s.trace, |s.trace|), t) == Shares(s, t).inside;
    }
  }

  ghost predicate LockRun(states: seq<Lock>, steps: seq<(Thread, LockAction)>)
  {
    && |states| == |steps| + 1 && states[0] == Lock([], None, map[])
    && forall i :: 0 <= i < |steps| ==> LockStepped(states[i], states[i + 1], steps[i])
  }

  ghost predicate LockStepped(s: Lock, s': Lock, step: (Thread, LockAction))
  {
    CanLock(s, step.0, step.1) && s' == OnLock(s, step.0, step.1)
  }

  lemma {:induction false} LockRunInv(states: seq<Lock>, steps: seq<(Thread, LockAction)>, i: nat)
    requires LockRun(states, steps) && i < |states|
    ensures LockInv(states[i])
  {
    hide CanLock, OnLock;
    if i > 0 {
      LockRunInv(states, steps, i - 1);
      assert LockStepped(states[i - 1], states[i - 1 + 1], steps[i - 1]);
      LockStep(states[i - 1], steps[i - 1].0, steps[i - 1].1);
    }
  }

  /** In index order, every trace of a lock is one of a lock that is acquired when free, shared
      only with sharers, and released by a holder. */
  lemma LockSerialises(states: seq<Lock>, steps: seq<(Thread, LockAction)>, i: nat)
    requires LockRun(states, steps) && i < |states|
    ensures AllAllowed(states[i].trace)
  {
    LockRunInv(states, steps, i);
  }

  /** The events of the first `n` steps: acquisitions and releases are logged by the thread that makes
      them, and nothing else is. */
  ghost function LockEvents(steps: seq<(Thread, LockAction)>, n: nat): seq<LockEvent>
    requires n <= |steps|
  {
    if n == 0 then []
    else
      var (t, act) := steps[n - 1];
      LockEvents(steps, n - 1) +
      if act.LogExc? then [AcquireExc(t)]
      else if act.LogShr? then [AcquireShr(t)]
      else if act.UnlogExc? || act.UnlogShr? then [ReleaseBy(t)]
      else if act.Elsewhere? then [Other]
      else []
  }

  /** The thread that has really taken the lock, and not dropped it. */
  ghost function Owner(steps: seq<(Thread, LockAction)>, n: nat): Option<Thread>
    requires n <= |steps|
  {
    if n == 0 then None
    else
      var (t, act) := steps[n - 1];
      if act.TakeExc? then Some(t) else if act.DropExc? then None else Owner(steps, n - 1)
  }

  /** How often a thread has really taken its share, and not dropped it. */
  ghost function Sharing(steps: seq<(Thread, LockAction)>, n: nat, u: Thread): int
    requires n <= |steps|
  {
    if n == 0 then 0
    else
      var (t, act) := steps[n - 1];
      Sharing(steps, n - 1, u) + if t != u then 0 else if act.TakeShr? then 1 else if act.DropShr? then -1 else 0
  }

  /** In every run the trace is what the steps log, in their order, and the lock is held by those who
      took it. */
  lemma {:induction false} LockProjected(states: seq<Lock>, steps: seq<(Thread, LockAction)>, i: nat, u: Thread)
    requires LockRun(states, steps) && i < |states|
    ensures states[i].trace == LockEvents(steps, i)
    ensures Owner(steps, i) == if states[i].exc.Some? then Some(states[i].exc.value.0) else None
    ensures
      var c := Shares(states[i], u);
      Sharing(steps, i, u) == c.got + c.inside + c.leaving
  {
    hide CanLock, OnLock;
    if i > 0 {
      LockProjected(states, steps, i - 1, u);
      assert LockStepped(states[i - 1], states[i - 1 + 1], steps[i - 1]);
      HoldersStep(states[i - 1], steps[i - 1].0, steps[i - 1].1, u);
    }
  }

  /** What one step logs, and whom it makes a holder. */
  lemma HoldersStep(s: Lock, t: Thread, act: LockAction, u: Thread)
    requires CanLock(s, t, act)
    ensures
      var s' := OnLock(s, t, act);
      var c, c' := Shares(s, u), Shares(s', u);
      && s'.trace == s.trace +
                     (if act.LogExc? then [AcquireExc(t)]
                      else if act.LogShr? then [AcquireShr(t)]
                      else if act.UnlogExc? || act.UnlogShr? then [ReleaseBy(t)]
                      else if act.Elsewhere? then [Other]
                      else [])
      && (act.TakeExc? ==> s'.exc.Some? && s'.exc.value.0 == t)
      && (act.DropExc? ==> s'.exc.None?)
      && (!act.TakeExc? && !act.DropExc? ==>
            if s.exc.None? then s'.exc.None? else s'.exc.Some? && s'.exc.value.0 == s.exc.value.0)
      && c'.got + c'.inside + c'.leaving == c.got + c.inside + c.leaving +
           (if t != u then 0 else if act.TakeShr? then 1 else if act.DropShr? then -1 else 0)
  {
  }

  /** A free lock can be taken, logged, released in the log and dropped, and is free again. */
  lemma LockCycle(s: Lock, t: Thread)
    requires s.exc.None? && NoShares(s)
    ensures
      && CanLock(s, t, TakeExc)
      && var s1 := OnLock(s, t, TakeExc);
      && CanLock(s1, t, LogExc)
      && var s2 := OnLock(s1, t, LogExc);
      && CanLock(s2, t, UnlogExc)
      && var s3 := OnLock(s2, t, UnlogExc);
      && CanLock(s3, t, DropExc) && OnLock(s3, t, DropExc) == s.(trace := s.trace + [AcquireExc(t), ReleaseBy(t)])
      && CanLock(s3, t, Keep) && CanLock(OnLock(s3, t, Keep), t, LogExc) && CanLock(s, t, Elsewhere)
  {
    assert s.trace + [AcquireExc(t)] + [ReleaseBy(t)] == s.trace + [AcquireExc(t), ReleaseBy(t)];
  }

  /** So can a share of a lock that is not held exclusively, beside any others. */
  lemma ShareCycle(s: Lock, t: Thread, u: Thread)
    requires s.exc.None?
    ensures
      && CanLock(s, t, TakeShr)
      && var s1 := OnLock(s, t, TakeShr);
      && CanLock(s1, t, LogShr)
      && var s2 := OnLock(s1, t, LogShr);
      && CanLock(s2, t, UnlogShr)
      && var s3 := OnLock(s2, t, UnlogShr);
      && CanLock(s3, t, DropShr)
      && var s4 := OnLock(s3, t, DropShr);
      && s4.trace == s.trace + [AcquireShr(t), ReleaseBy(t)] && s4.exc == s.exc && Shares(s4, u) == Shares(s, u)
  {
    assert s.trace + [AcquireShr(t)] + [ReleaseBy(t)] == s.trace + [AcquireShr(t), ReleaseBy(t)];
  }

  /** Nothing but `Other` from `i` to below `j`: the holders stay. */
  lemma {:induction false} HeldQuiet(trace: seq<LockEvent>, i: nat, j: nat)
    requires i <= j <= |trace| && forall k :: i <= k < j ==> trace[k].Other?
    ensures HeldAfter(trace, j) == HeldAfter(trace, i)
    decreases j
  {
    if i < j { HeldQuiet(trace, i, j - 1); }
  }

  /** `i` is the last event on the lock before event `j` on it. */
  ghost predicate Previous(trace: seq<LockEvent>, i: nat, j: nat)
  {
    && i < j < |trace| && !trace[i].Other? && !trace[j].Other?
    && forall k :: i < k < j ==> trace[k].Other?
  }

  /** `j` is the first event on the lock. */
  ghost predicate First(trace: seq<LockEvent>, j: nat)
  {
    j < |trace| && !trace[j].Other? && forall k :: 0 <= k < j ==> trace[k].Other?
  }

  lemma {:induction false} AfterAcquire(trace: seq<LockEvent>, i: nat, j: nat)
    requires AllAllowed(trace) && Previous(trace, i, j) && trace[i].AcquireExc?
    ensures trace[j] == ReleaseBy(trace[i].t)
  {
    hide HeldAfter;
    var h := HeldAfter(trace, i);
    assert Allowed(trace, i) && Allowed(trace, j);
    HeldAcquired(trace, i);
    HeldQuiet(trace, i + 1, j);
    if trace[j].ReleaseBy? { assert HeldShares(h, trace[j].t) == 0; }
  }

  /** In every run, while a lock is held exclusively, the next event on it is the release by its
      holder: no acquisition, exclusive or shared, falls into an exclusive hold. */
  lemma ExclusiveHold(states: seq<Lock>, steps: seq<(Thread, LockAction)>, r: nat, i: nat, j: nat)
    requires LockRun(states, steps) && r < |states|
    requires Previous(states[r].trace, i, j) && states[r].trace[i].AcquireExc?
    ensures states[r].trace[j] == ReleaseBy(states[r].trace[i].t)
  {
    LockSerialises(states, steps, r);
    AfterAcquire(states[r].trace, i, j);
  }

  lemma HeldAcquired(trace: seq<LockEvent>, i: nat)
    requires i < |trace| && trace[i].AcquireExc?
    ensures HeldAfter(trace, i + 1) == HeldAfter(trace, i).(exc := Some(trace[i].t))
  {
  }

  /** A trace without shared acquisitions never has shares. */
  lemma {:induction false} NeverShared(trace: seq<LockEvent>, n: nat, t: Thread)
    requires n <= |trace| && NotShared(trace)
    ensures HeldShares(HeldAfter(trace, n), t) == 0
  {
    if n > 0 { NeverShared(trace, n - 1, t); }
  }

  lemma {:induction false} AfterRelease(trace: seq<LockEvent>, i: nat, j: nat)
    requires AllAllowed(trace) && NotShared(trace) && Previous(trace, i, j) && trace[i].ReleaseBy?
    ensures trace[j].AcquireExc?
  {
    hide HeldAfter;
    assert Allowed(trace, i) && Allowed(trace, j);
    NeverShared(trace, i, trace[i].t);
    HeldReleased(trace, i);
    HeldQuiet(trace, i + 1, j);
    if trace[j].ReleaseBy? { NeverShared(trace, j, trace[j].t); }
  }

  lemma {:induction false} FirstAcquires(trace: seq<LockEvent>, j: nat)
    requires AllAllowed(trace) && NotShared(trace) && First(trace, j)
    ensures trace[j].AcquireExc?
  {
    assert Allowed(trace, j);
    HeldQuiet(trace, 0, j);
  }

  ghost predicate NotShared(trace: seq<LockEvent>)
  {
    forall k :: 0 <= k < |trace| ==> !trace[k].AcquireShr?
  }

  /** A lock that is only taken exclusively has no shared acquisition in its trace. */
  lemma {:induction false} MutexTrace(states: seq<Lock>, steps: seq<(Thread, LockAction)>, r: nat)
    requires LockRun(states, steps) && r < |states|
    requires forall k :: 0 <= k < |steps| ==> !steps[k].1.LogShr?
    ensures NotShared(states[r].trace)
  {
    if r > 0 {
      MutexTrace(states, steps, r - 1);
      assert LockStepped(states[r - 1], states[r - 1 + 1], steps[r - 1]);
    }
  }

  /** In every run of a mutex or spin lock its events strictly alternate: the first is an
      acquisition, after an acquisition comes its release by the same thread, after a release an
      acquisition. */
  lemma MutexAlternates(states: seq<Lock>, steps: seq<(Thread, LockAction)>, r: nat, j: nat)
    requires LockRun(states, steps) && r < |states|
    requires forall k :: 0 <= k < |steps| ==> !steps[k].1.LogShr?
    ensures
      var trace := states[r].trace;
      && (First(trace, j) ==> trace[j].AcquireExc?)
      && forall i: nat :: Previous(trace, i, j) ==>
           if trace[i].AcquireExc? then trace[j] == ReleaseBy(trace[i].t) else trace[j].AcquireExc?
  {
    hide AllAllowed, NotShared;
    var trace := states[r].trace;
    LockSerialises(states, steps, r);
    MutexTrace(states, steps, r);
    if First(trace, j) { FirstAcquires(trace, j); }
    forall i: nat | Previous(trace, i, j)
      ensures if trace[i].AcquireExc? then trace[j] == ReleaseBy(trace[i].t) else trace[j].AcquireExc?
    {
      NotSharedAt(trace, i);
      if trace[i].AcquireExc? { AfterAcquire(trace, i, j); } else { AfterRelease(trace, i, j); }
    }
  }

  lemma NotSharedAt(trace: seq<LockEvent>, i: nat)
    requires NotShared(trace) && i < |trace|
    ensures !trace[i].AcquireShr?
  {
  }

  lemma HeldReleased(trace: seq<LockEvent>, i: nat)
    requires i < |trace| && trace[i].ReleaseBy? && HeldAfter(trace, i).exc == Some(trace[i].t)
    ensures HeldAfter(trace, i + 1).exc == None
  {
  }

  // ------------------------------------------------------------- semaphores

  datatype SemEvent = Wait | Post | NotSem

  /** The real value, posts logged but not yet done, and waits done but not yet logged. */
  datatype Sem = Sem(trace: seq<SemEvent>, value: nat, posting: nat, taken: nat)

  datatype SemAction = LogPost | DoPost | DoWait | LogWait | NoSem

  ghost predicate CanSem(s: Sem, act: SemAction)
  {
    match act
    case LogPost => true
    case DoPost => s.posting > 0
    case DoWait => s.value > 0
    case LogWait => s.taken > 0
    case NoSem => true
  }

  ghost function OnSem(s: Sem, act: SemAction): Sem
    requires CanSem(s, act)
  {
    match act
    case LogPost => s.(posting := s.posting + 1, trace := s.trace + [Post])
    case DoPost => s.(posting := s.posting - 1, value := s.value + 1)
    case DoWait => s.(value := s.value - 1, taken := s.taken + 1)
    case LogWait => s.(taken := s.taken - 1, trace := s.trace + [Wait])
    case NoSem => s.(trace := s.trace + [NotSem])
  }

  /** Posts less waits among the first `n` events. */
  ghost function Balance(trace: seq<SemEvent>, n: nat): int
    requires n <= |trace|
  {
    if n == 0 then 0
    else Balance(trace, n - 1) + (if trace[n - 1].Post? then 1 else if trace[n - 1].Wait? then -1 else 0)
  }

  lemma {:induction false} BalancePrefix(trace: seq<SemEvent>, e: SemEvent, n: nat)
    requires n <= |trace|
    ensures Balance(trace + [e], n) == Balance(trace, n)
  {
    if n > 0 { BalancePrefix(trace, e, n - 1); }
  }

  /** Nothing is lost: the initial count and the logged balance are in the value, in posts on
      their way, or in waits on their way. Logged waits never exceed initial count and posts. */
  ghost predicate SemInv(init: nat, s: Sem)
  {
    && init + Balance(s.trace, |s.trace|) == s.value + s.posting + s.taken
    && forall n :: 0 <= n <= |s.trace| ==> init + Balance(s.trace, n) >= 0
  }

  lemma SemStep(init: nat, s: Sem, act: SemAction)
    requires SemInv(init, s) && CanSem(s, act)
    ensures SemInv(init, OnSem(s, act))
  {
    var s', n := OnSem(s, act), |s.trace|;
    if s'.trace != s.trace {
      var e := s'.trace[n];
      assert s'.trace == s.trace + [e];
      BalancePrefix(s.trace, e, n);
      forall k | 0 <= k <= n + 1 ensures init + Balance(s'.trace, k) >= 0 {
        if k <= n { BalancePrefix(s.trace, e, k); }
      }
    }
  }

  ghost predicate SemRun(init: nat, states: seq<Sem>, steps: seq<SemAction>)
  {
    && |states| == |steps| + 1 && states[0] == Sem([], init, 0, 0)
    && forall i :: 0 <= i < |steps| ==> CanSem(states[i], steps[i]) && states[i + 1] == OnSem(states[i], steps[i])
  }

  /** In every prefix of every run's trace there are at most as many waits as the initial count
      and the posts before them allow. */
  lemma {:induction false} SemaphorePrefix(init: nat, states: seq<Sem>, steps: seq<SemAction>, i: nat)
    requires SemRun(init, states, steps) && i < |states|
    ensures SemInv(init, states[i])
  {
    hide CanSem, OnSem;
    if i > 0 {
      SemaphorePrefix(init, states, steps, i - 1);
      assert states[i - 1 + 1] == OnSem(states[i - 1], steps[i - 1]);
      SemStep(init, states[i - 1], steps[i - 1]);
    }
  }

  /** The events of the first `n` steps: one for each post, wait and event elsewhere that is logged. */
  ghost function SemEvents(steps: seq<SemAction>, n: nat): seq<SemEvent>
    requires n <= |steps|
  {
    if n == 0 then []
    else
      SemEvents(steps, n - 1) +
      match steps[n - 1]
      case LogPost => [Post]
      case LogWait => [Wait]
      case NoSem => [NotSem]
      case _ => []
  }

  /** How many of the first `n` steps are `act`. */
  ghost function Times(steps: seq<SemAction>, n: nat, act: SemAction): nat
    requires n <= |steps|
  {
    if n == 0 then 0 else Times(steps, n - 1, act) + if steps[n - 1] == act then 1 else 0
  }

  /** In every run the trace is what the steps log, in their order; the value is the initial count, the
      posts done and the waits done; and posts are logged before, waits after they are done. */
  lemma {:induction false} SemProjected(init: nat, states: seq<Sem>, steps: seq<SemAction>, i: nat)
    requires SemRun(init, states, steps) && i < |states|
    ensures states[i].trace == SemEvents(steps, i)
    ensures states[i].value == init + Times(steps, i, DoPost) - Times(steps, i, DoWait)
    ensures states[i].posting == Times(steps, i, LogPost) - Times(steps, i, DoPost)
    ensures states[i].taken == Times(steps, i, DoWait) - Times(steps, i, LogWait)
  {
    if i > 0 {
      SemProjected(init, states, steps, i - 1);
      assert states[i - 1 + 1] == OnSem(states[i - 1], steps[i - 1]);
    }
  }

  /** In every state a post can be logged and done, and then waited for and the wait logged. */
  lemma PostThenWait(s: Sem)
    ensures
      && CanSem(s, LogPost)
      && var s1 := OnSem(s, LogPost);
      && CanSem(s1, DoPost)
      && var s2 := OnSem(s1, DoPost);
      && s2.value == s.value + 1 && CanSem(s2, DoWait)
      && var s3 := OnSem(s2, DoWait);
      && CanSem(s3, LogWait) && OnSem(s3, LogWait) == s.(trace := s.trace + [Post, Wait]) && CanSem(s, NoSem)
  {
    assert s.trace + [Post] + [Wait] == s.trace + [Post, Wait];
  }

  // ---------------------------------------------------------------- threads

  /** How far a thread creation has come, in the creator and in the child. */
  datatype Creation = NotBegun | Calling(index: nat) | Running(index: nat) | Reported(index: nat)

  datatype Child = Unborn | Born | Started(start: nat) | Exited(start: nat, exit: nat) | Ended(start: nat, exit: nat)

  datatype Joining = NotJoined | JoinReturned | Joined(join: nat)

  /** One child thread: the index counter, its creation, its life, and its join. */
  datatype Life = Life(counter: nat, creation: Creation, child: Child, joining: Joining)

  datatype LifeAction =
    CreateIndex | RealCreate | LogCreate | LogStart | LogExit | RealEnd | RealJoin | LogJoin | TakeOther

  ghost predicate CanLive(s: Life, act: LifeAction)
  {
    match act
    case CreateIndex => s.creation.NotBegun?
    case RealCreate => s.creation.Calling?
    case LogCreate => s.creation.Running?
    case LogStart => s.child.Born?
    case LogExit => s.child.Started?
    case RealEnd => s.child.Exited?
    case RealJoin => s.child.Ended? && s.joining.NotJoined?
    case LogJoin => s.joining.JoinReturned?
    case TakeOther => true
  }

  ghost function OnLife(s: Life, act: LifeAction): Life
    requires CanLive(s, act)
  {
    match act
    case CreateIndex => s.(creation := Calling(s.counter), counter := s.counter + 1)
    case RealCreate => s.(creation := Running(s.creation.index), child := Born)
    case LogCreate => s.(creation := Reported(s.creation.index))
    case LogStart => s.(child := Started(s.counter), counter := s.counter + 1)
    case LogExit => s.(child := Exited(s.child.start, s.counter), counter := s.counter + 1)
    case RealEnd => s.(child := Ended(s.child.start, s.child.exit))
    case RealJoin => s.(joining := JoinReturned)
    case LogJoin => s.(joining := Joined(s.counter), counter := s.counter + 1)
    case TakeOther => s.(counter := s.counter + 1)
  }

  /** Create before start before exit before join, as far as they have happened. */
  ghost predicate Ordered(s: Life)
  {
    && (s.creation.Calling? || s.creation.Running? || s.creation.Reported? ==> s.creation.index < s.counter)
    && (!s.child.Unborn? ==> s.creation.Running? || s.creation.Reported?)
    && (s.child.Unborn? ==> s.creation.NotBegun? || s.creation.Calling?)
    && (s.child.Started? ==> s.creation.index < s.child.start < s.counter)
    && (s.child.Exited? || s.child.Ended? ==> s.creation.index < s.child.start < s.child.exit < s.counter)
    && (!s.joining.NotJoined? ==> s.child.Ended?)
    && (s.joining.Joined? ==> s.child.exit < s.joining.join)
  }

  ghost predicate LifeRun(states: seq<Life>, steps: seq<LifeAction>)
  {
    && |states| == |steps| + 1
    && states[0].creation.NotBegun? && states[0].child.Unborn? && states[0].joining.NotJoined?
    && forall i :: 0 <= i < |steps| ==> CanLive(states[i], steps[i]) && states[i + 1] == OnLife(states[i], steps[i])
  }

  /** For every joined thread the logged indices are in the order create, start, exit, join. */
  lemma {:induction false} LifeOrdered(states: seq<Life>, steps: seq<LifeAction>, i: nat)
    requires LifeRun(states, steps) && i < |states|
    ensures Ordered(states[i])
    ensures states[i].joining.Joined? ==>
      var c := states[i].child;
      states[i].creation.index < c.start < c.exit < states[i].joining.join
  {
    if i > 0 {
      LifeOrdered(states, steps, i - 1);
      assert states[i - 1 + 1] == OnLife(states[i - 1], steps[i - 1]);
    }
  }

  /** How many of the first `n` steps take an index. */
  ghost function IndicesTaken(steps: seq<LifeAction>, n: nat): nat
    requires n <= |steps|
  {
    if n == 0 then 0
    else
      var act := steps[n - 1];
      IndicesTaken(steps, n - 1) +
      if act.CreateIndex? || act.LogStart? || act.LogExit? || act.LogJoin? || act.TakeOther? then 1 else 0
  }

  /** In every run each event has the index that was next when it was taken: creation before the real
      call, start and exit in the child, join after the real call. */
  lemma {:induction false} LifeProjected(states: seq<Life>, steps: seq<LifeAction>, i: nat, k: nat)
    requires LifeRun(states, steps) && k < i < |states|
    ensures
      var index := states[0].counter + IndicesTaken(steps, k);
      match steps[k]
      case CreateIndex => !states[i].creation.NotBegun? && states[i].creation.index == index
      case LogStart => !states[i].child.Unborn? && !states[i].child.Born? && states[i].child.start == index
      case LogExit => (states[i].child.Exited? || states[i].child.Ended?) && states[i].child.exit == index
      case LogJoin => states[i].joining == Joined(index)
      case _ => true
    decreases i
  {
    assert states[i - 1 + 1] == OnLife(states[i - 1], steps[i - 1]);
    LifeOrdered(states, steps, i - 1);
    if k < i - 1 { LifeProjected(states, steps, i - 1, k); } else { CounterCounts(states, steps, k); }
  }

  lemma {:induction false} CounterCounts(states: seq<Life>, steps: seq<LifeAction>, i: nat)
    requires LifeRun(states, steps) && i < |states|
    ensures states[i].counter == states[0].counter + IndicesTaken(steps, i)
  {
    if i > 0 {
      CounterCounts(states, steps, i - 1);
      assert states[i - 1 + 1] == OnLife(states[i - 1], steps[i - 1]);
    }
  }

  /** A thread can be created, run, end and be joined. */
  lemma WholeLife(c: nat) returns (states: seq<Life>, steps: seq<LifeAction>)
    ensures LifeRun(states, steps) && |states| == 9 && states[0].counter == c
    ensures states[8] == Life(c + 4, Reported(c), Ended(c + 1, c + 2), Joined(c + 3))
    ensures forall s :: CanLive(s, TakeOther)
  {
    var s0 := Life(c, NotBegun, Unborn, NotJoined);
    var s1 := OnLife(s0, CreateIndex);
    var s2 := OnLife(s1, RealCreate);
    var s3 := OnLife(s2, LogCreate);
    var s4 := OnLife(s3, LogStart);
    var s5 := OnLife(s4, LogExit);
    var s6 := OnLife(s5, RealEnd);
    var s7 := OnLife(s6, RealJoin);
    states := [s0, s1, s2, s3, s4, s5, s6, s7, OnLife(s7, LogJoin)];
    steps := [CreateIndex, RealCreate, LogCreate, LogStart, LogExit, RealEnd, RealJoin, LogJoin];
  }
}
