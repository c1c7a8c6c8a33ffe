/** Whole runs of one thread: what is traced, written, found again and read back is the log. */
module RoundTrip {
  import opened Bytes
  import opened Entries
  import opened TraceReader
  import opened Fragment
  import opened TraceDump
  import opened Lz4Format
  import opened Writer
  import opened Thread
  import opened Runs
  import Lz4Reference

  // ------------------------------------------------------ what a reader sees

  /** The records as a reader should see them. */
  ghost function SeenLog(log: seq<Record>): seq<Decoded>
  {
    seq(|log|, i requires 0 <= i < |log| => Seen(log[i]))
  }

  ghost predicate NoZeroFree(log: seq<Record>)
  {
    forall i :: 0 <= i < |log| ==> !ZeroFree(log[i])
  }

  lemma {:induction false} SeenFromLength(ps: seq<Placed>, i: nat)
    requires i <= |ps|
    ensures |SeenFrom(ps, i)| <= |ps| - i
    ensures |SeenFrom(ps, i)| == |ps| - i <==> forall k :: i <= k < |ps| ==> !ZeroFree(ps[k].r)
    ensures forall k :: 0 <= k < |SeenFrom(ps, i)| ==> SeenFrom(ps, i)[k] == Seen(ps[i + k].r)
    decreases |ps| - i
  {
    hide ZeroFree, Seen;
    if i < |ps| { SeenFromLength(ps, i + 1); }
  }

  lemma {:induction false} SeenLogJoin(a: seq<Record>, b: seq<Record>)
    ensures SeenLog(a + b) == SeenLog(a) + SeenLog(b)
    ensures NoZeroFree(a + b) <==> NoZeroFree(a) && NoZeroFree(b)
  {
    hide ZeroFree, Seen;
    if NoZeroFree(a + b) {
      forall i | 0 <= i < |a| ensures !ZeroFree(a[i]) { assert (a + b)[i] == a[i]; }
      forall i | 0 <= i < |b| ensures !ZeroFree(b[i]) { assert (a + b)[|a| + i] == b[i]; }
    }
  }

  lemma {:induction false} FragmentSeen(ps: seq<Placed>)
    ensures |SeenFrom(ps, 0)| <= |Records(ps)|
    ensures NoZeroFree(Records(ps)) <==> |SeenFrom(ps, 0)| == |Records(ps)|
    ensures NoZeroFree(Records(ps)) ==> SeenFrom(ps, 0) == SeenLog(Records(ps))
  {
    hide ZeroFree, Seen;
    SeenFromLength(ps, 0);
    assert forall k :: 0 <= k < |ps| ==> Records(ps)[k] == ps[k].r;
  }

  /** Reading fragments yields their records, all of them exactly if none looks like the
      zero-filled tail of a fragment. */
  lemma {:induction false} SeenAllIsLog(fs: seq<seq<Placed>>, n: nat)
    requires n <= |fs|
    ensures |SeenAll(fs, n)| <= |JoinedTo(fs, n)|
    ensures NoZeroFree(JoinedTo(fs, n)) <==> |SeenAll(fs, n)| == |JoinedTo(fs, n)|
    ensures NoZeroFree(JoinedTo(fs, n)) <==> SeenAll(fs, n) == SeenLog(JoinedTo(fs, n))
  {
    if n == 0 { assert NoZeroFree([]); }
    hide NoZeroFree, SeenFrom, Records, Seen;
    if n > 0 {
      SeenAllIsLog(fs, n - 1);
      FragmentSeen(fs[n - 1]);
      SeenLogJoin(JoinedTo(fs, n - 1), Records(fs[n - 1]));
    }
  }

  // ---------------------------------------------------------- whole runs

  /** The entries of `n` steps are in the fragments they belong in. */
  ghost predicate InPlace(th: Thread, ops: seq<Op>, n: nat)
    requires n <= |ops|
    reads th
  {
    th.flushed == PackAt(ops, n).closed && th.current == PackAt(ops, n).current
  }

  /** The thread is tracing, in the state `n` steps should leave it in. */
  ghost predicate Alive(th: Thread, ops: seq<Op>, n: nat)
    requires n <= |ops|
    reads th, th.writer, th.writer.buffer, th.writer.compBuf
  {
    && th.Valid() && !th.failed && th.stack == StackAt(ops, n) && th.log == LogAt(ops, n)
    && th.writer.initd && !th.writer.failed
    && InPlace(th, ops, n) && th.stackBottom == Known(ops, PackAt(ops, n), n)
    && SizeAt(ops, n) == if th.writer.buffer != null then Some(th.writer.size) else None
  }

  /** Tracing has stopped for good at step `stop`: the writer has failed at an event, or the thread
      at a call. */
  ghost predicate Dead(th: Thread, ops: seq<Op>, stop: nat)
    requires stop < |ops|
    reads th, th.writer, th.writer.buffer, th.writer.compBuf
  {
    && th.Valid() && th.writer.initd && th.log == LogAt(ops, stop) && InPlace(th, ops, stop)
    && if th.writer.failed then EventFailed(th.writer, ops, stop) else th.failed && ops[stop].Enter?
  }

  /** The writer is left as the event at which it failed says. */
  ghost predicate EventFailed(w: Writer, ops: seq<Op>, stop: nat)
    requires stop < |ops|
    reads w
  {
    var had := LogAt(ops, stop) != [];
    ops[stop].Event? && w.Left(ops[stop].io.output, had) && (had ==> !ops[stop].io.output.Stored?)
  }

  /** After `n` steps: everything is logged, or everything up to the step at which tracing stopped. */
  ghost predicate InStep(th: Thread, ops: seq<Op>, n: nat, stop: nat)
    requires n <= |ops|
    reads th, th.writer, th.writer.buffer, th.writer.compBuf
  {
    stop <= n && if stop == n then Alive(th, ops, n) else Dead(th, ops, stop) && Trouble(ops, stop)
  }

  /** The buffers are the ones there were, new ones or gone. */
  twostate predicate SameOrFresh(th: Thread)
    reads th, th.writer
  {
    var w := th.writer;
    && (w.buffer == null || w.buffer == old(w.buffer) || fresh(w.buffer))
    && (w.compBuf == null || w.compBuf == old(w.compBuf) || fresh(w.compBuf))
  }

  /** An event of a run fits the buffer there is or will be. */
  lemma EventReady(th: Thread, ops: seq<Op>, n: nat)
    requires n < |ops| && ops[n].Event? && RunFits(ops) && Alive(th, ops, n)
    ensures ValidType(ops[n].kind) ==> BodyFits(ops[n].kind, ops[n].body)
    ensures ValidType(ops[n].kind) && th.writer.Usable(ops[n].traceSize, ops[n].io) ==>
      th.Fits(ops[n].kind, ops[n].traceSize)
  {
    hide Chain, Layout, Joined, Records, Prev, IsFile, Disk, Linked, BodyFits, FixedSize, ValidType, WithStack;
    hide StackAt, LogAt, SizeAt, th.writer.ValidFiles, th.ValidLog;
    assert EventFits(ops, n);
    EventLog(ops, n);
  }

  /** An accepted event is the next record; `size` is that of the buffer there was, and the fragment is
      closed if the entry does not fit behind the others. */
  lemma EventAccepted(th: Thread, ops: seq<Op>, n: nat, size: Option<nat>, rolls: bool)
    requires n < |ops| && Logs(ops, n) && SizeAt(ops, n) == size
    requires th.Valid() && !th.failed && th.stack == StackAt(ops, n) && th.writer.initd && !th.writer.failed
    requires th.log == LogAt(ops, n) + [RecordAt(ops, n)]
    requires th.writer.buffer != null && th.writer.size == if size.Some? then size.value else ops[n].traceSize
    requires
      var p, r := PackAt(ops, n), RecordAt(ops, n);
      var known := Known(ops, p, n);
      var kept := if WithStack(r.kind) then known else 0;
      && (rolls <==> !FitsIn(ops, n, Total(p.current) + EntryBytes(r, kept)))
      && th.flushed == (if rolls then p.closed + [p.current] else p.closed)
      && th.current == (if rolls then [Placed(r, 0)] else p.current + [Placed(r, kept)])
      && th.stackBottom == if WithStack(r.kind) then |th.stack| else if rolls then 0 else known
    ensures Alive(th, ops, n + 1)
  {
    hide th.Valid, StackAt, LogAt, SizeAt, ValidType, WithStack, FitsIn, Total, EntryBytes;
    EventLog(ops, n);
    EventPacked(ops, n);
  }

  /** The writer closes the fragment exactly if the entry does not fit behind the others. */
  lemma EventRolls(th: Thread, ops: seq<Op>, n: nat)
    requires n < |ops| && Logs(ops, n) && RunFits(ops) && Alive(th, ops, n) && th.stackBottom <= |th.stack|
    requires th.Accepts(ops[n].kind, ops[n].traceSize, ops[n].io)
    ensures
      var p, r := PackAt(ops, n), RecordAt(ops, n);
      var kept := if WithStack(r.kind) then Known(ops, p, n) else 0;
      th.writer.Rolls(th.Needs(r.kind), ops[n].traceSize)
      <==> !FitsIn(ops, n, Total(p.current) + EntryBytes(r, kept))
  {
    hide StackAt, LogAt, PackAt, Known, Total, Layout, EntryBytes, BodyFits, th.Valid, AllPlaced, Blocked;
    hide FixedSize, WithStack, ValidType, SizeAt;
    th.OffsetIs();
    assert EventFits(ops, n);
    EventLog(ops, n);
    NeedsBytes(th, ops, n);
    TotalIsLayout(th.current);
    EmptyTotal();
    if th.writer.buffer == null { th.NothingKnown(); }
  }

  lemma NeedsBytes(th: Thread, ops: seq<Op>, n: nat)
    requires n < |ops| && Logs(ops, n) && BodyFits(ops[n].kind, ops[n].body)
    requires th.stack == StackAt(ops, n) && th.stackBottom <= |th.stack|
    ensures th.Needs(ops[n].kind) == EntryBytes(RecordAt(ops, n), if WithStack(ops[n].kind) then th.stackBottom else 0)
  {
    hide StackAt;
  }

  /** One of unknown type is dropped. */
  lemma EventDropped(th: Thread, ops: seq<Op>, n: nat)
    requires n < |ops| && ops[n].Event? && !ValidType(ops[n].kind) && Alive(th, ops, n)
    ensures Alive(th, ops, n + 1)
  {
    hide th.Valid, StackAt, LogAt, SizeAt, ValidType;
    EventLog(ops, n);
    QuietPacked(ops, n);
    if PackAt(ops, n).since.Some? { LowestBound(ops, PackAt(ops, n).since.value, n); }
  }

  /** One that is refused for another reason meets trouble: storing the fragment, if there is one. */
  lemma EventRefused(th: Thread, ops: seq<Op>, n: nat)
    requires n < |ops| && ops[n].Event? && ValidType(ops[n].kind) && Alive(th, ops, n)
    requires th.stackBottom <= |th.stack| && !th.Accepts(ops[n].kind, ops[n].traceSize, ops[n].io)
    ensures Trouble(ops, n) && (LogAt(ops, n) != [] <==> th.writer.buffer != null)
    ensures LogAt(ops, n) != [] ==> !ops[n].io.output.Stored?
  {
    hide Chain, Layout, Joined, Records, Prev, IsFile, Disk, Linked, ValidType, StackAt, LogAt, SizeAt;
    hide th.writer.ValidFiles, th.ValidLog, th.ValidStack;
  }

  /** An event while the thread is tracing. */
  method AliveEvent(th: Thread, ghost ops: seq<Op>, ghost n: nat, op: Op) returns (ghost stop: nat)
    requires n < |ops| && op == ops[n] && op.Event? && RunFits(ops) && Alive(th, ops, n)
    modifies th, th.writer, th.writer.buffer, th.writer.compBuf
    ensures InStep(th, ops, n + 1, stop) && SameOrFresh(th)
  {
    hide StackAt, LogAt, SizeAt, Trouble, ValidType, BodyFits, RunFits, EventFits, PackAt, Known, FitsIn, Total;
    hide EntryBytes, WithStack, th.Needs, th.writer.Rolls;
    hide th.Valid, th.Accepts, th.Fits, th.writer.Usable, th.writer.Left, th.writer.Valid;
    EventReady(th, ops, n);
    AliveFacts(th, ops, n);
    ghost var size := if th.writer.buffer != null then Some(th.writer.size) else None;
    ghost var rolls := th.writer.Rolls(th.Needs(op.kind), op.traceSize);
    if ValidType(op.kind) {
      if th.Accepts(op.kind, op.traceSize, op.io) { EventRolls(th, ops, n); } else { EventRefused(th, ops, n); }
    }
    var ok := th.Log(op.kind, op.ptr, op.body, op.traceSize, op.io);
    if ok {
      WriterOpen(th);
      EventAccepted(th, ops, n, size, rolls);
      stop := n + 1;
    } else if ValidType(op.kind) {
      stop := n;
    } else {
      EventDropped(th, ops, n);
      stop := n + 1;
    }
  }

  lemma WriterOpen(th: Thread)
    requires th.Valid() && th.writer.buffer != null
    ensures th.writer.initd && !th.writer.failed
  {
  }

  lemma AliveFacts(th: Thread, ops: seq<Op>, n: nat)
    requires n <= |ops| && Alive(th, ops, n)
    ensures th.Valid() && !th.failed && th.stackBottom <= |th.stack|
  {
    hide Chain, Layout, Joined, Records, Prev, IsFile, Disk, Linked, th.writer.ValidFiles, th.ValidLog;
  }

  /** An event when tracing has stopped. */
  method DeadEvent(th: Thread, ghost ops: seq<Op>, ghost n: nat, op: Op, ghost stop: nat)
    requires stop <= n < |ops| && op == ops[n] && op.Event? && RunFits(ops) && Dead(th, ops, stop)
    modifies th, th.writer, th.writer.buffer, th.writer.compBuf
    ensures Dead(th, ops, stop) && SameOrFresh(th)
  {
    hide Chain, Layout, Joined, Records, Prev, IsFile, Disk, Linked, BodyFits, FixedSize, ValidType, WithStack;
    hide StackAt, LogAt, SizeAt, th.writer.ValidFiles, th.ValidLog, th.ValidStack, th.writer.Left, Blocked;
    assert EventFits(ops, n);
    DeadFacts(th, ops, stop);
    var ok := th.Log(op.kind, op.ptr, op.body, op.traceSize, op.io);
  }

  lemma DeadFacts(th: Thread, ops: seq<Op>, stop: nat)
    requires stop < |ops| && Dead(th, ops, stop)
    ensures th.stackBottom <= |th.stack|
  {
    hide Chain, Layout, Joined, Records, Prev, IsFile, Disk, Linked, th.writer.ValidFiles, th.ValidLog;
  }

  /** One step of a run. */
  method Step(th: Thread, ghost ops: seq<Op>, ghost n: nat, op: Op, ghost was: nat) returns (ghost stop: nat)
    requires n < |ops| && op == ops[n] && RunFits(ops) && InStep(th, ops, n, was)
    modifies th, th.writer, th.writer.buffer, th.writer.compBuf
    ensures InStep(th, ops, n + 1, stop) && SameOrFresh(th)
  {
    hide Chain, Layout, Joined, Records, Prev, IsFile, Disk, Linked, RunFits, EventFailed;
    hide th.writer.ValidFiles, th.ValidLog;
    if !op.Event? {
      stop := Move(th, ops, n, op, was);
    } else if th.failed || th.writer.failed {
      stop := was;
      DeadEvent(th, ops, n, op, was);
    } else {
      stop := AliveEvent(th, ops, n, op);
    }
  }

  /** A call or a return. */
  method Move(th: Thread, ghost ops: seq<Op>, ghost n: nat, op: Op, ghost was: nat) returns (ghost stop: nat)
    requires n < |ops| && op == ops[n] && !op.Event? && InStep(th, ops, n, was)
    modifies th
    ensures InStep(th, ops, n + 1, stop) && SameOrFresh(th)
  {
    hide Chain, Layout, Joined, Records, Prev, IsFile, Disk, Linked, EventFailed;
    hide th.writer.ValidFiles, th.ValidLog;
    stop := was;
    match op
    case Enter(caller, granted) =>
      th.Push(caller, granted);
      if was == n && !th.failed { stop := n + 1; }
    case Leave =>
      th.Pop();
      if was == n { stop := n + 1; }
  }

  // -------------------------------------------------------- what it leaves

  /** The outcome of the last attempt to write out a fragment: at the event at which the writer
      failed, or at the end. */
  ghost function Final(ops: seq<Op>, stop: nat, last: Output): Output
  {
    if stop < |ops| && ops[stop].Event? then ops[stop].io.output else last
  }

  /** How a thread ends, having logged something or not: the files are as the last outcome says; a
      fragment that was not stored is lost, and one record at least with it or before it. */
  ghost predicate EndedWith(th: Thread, output: Output, had: bool)
    reads th, th.writer
  {
    && th.Ended() && th.writer.Left(output, had) && (had <==> th.log != [])
    && (output.Stored? || !had ==> th.current == [])
    && (had && !output.Stored? ==> |th.flushed| < |th.log|)
  }

  /** The last fragment has joined the others, if it was stored. */
  ghost predicate Parted(th: Thread, ops: seq<Op>, stop: nat, stored: bool)
    requires stop <= |ops|
    reads th
  {
    var p := PackAt(ops, stop);
    if stored then th.flushed == p.closed + [p.current] && th.current == [] else InPlace(th, ops, stop)
  }

  /** The end of the thread. */
  method Finish(th: Thread, ghost ops: seq<Op>, ghost stop: nat, last: Output)
    requires InStep(th, ops, |ops|, stop)
    modifies th, th.writer, th.writer.compBuf
    ensures EndedWith(th, Final(ops, stop, last), LogAt(ops, stop) != []) && th.log == LogAt(ops, stop)
    ensures Parted(th, ops, stop, LogAt(ops, stop) != [] && Final(ops, stop, last).Stored?)
    ensures stop < |ops| ==> Trouble(ops, stop)
  {
    hide Chain, Layout, Joined, Records, Prev, IsFile, Disk, Linked, StackAt, LogAt, SizeAt, Trouble, PackAt, Known;
    hide th.writer.ValidFiles, Opened, Damaged;
    th.Fini(last);
  }

  // ---------------------------------------------------------- on the disk

  /** Of `fs`, the newest `max` are left in files 0, 1, ..., each fragment in the file its number
      falls on; but for the gap, the file of a next fragment that was removed again. */
  ghost predicate OnDisk(files: map<nat, seq<Byte>>, version: seq<Byte>, fs: seq<seq<Placed>>, max: nat,
                         gap: Option<nat>)
    requires max > 0 && |version| == VERSION_SIZE
  {
    && (gap.Some? ==> gap.value == |fs| % max)
    && (forall j: nat :: j in files <==> j < max && j < |fs| && gap != Some(j))
    && (forall k: nat :: k < |fs| && |fs| <= k + max && gap != Some(k % max) ==>
          k % max in files && HoldsFragment(files[k % max], version, fs[k]))
  }

  ghost predicate HasUnreadable(files: map<nat, seq<Byte>>)
  {
    exists j: nat :: j in files && Unreadable(files[j])
  }

  ghost predicate AllHold(frags: seq<seq<Byte>>, version: seq<Byte>, fs: seq<seq<Placed>>)
  {
    |frags| == |fs| && forall k :: 0 <= k < |fs| ==> HoldsFragment(frags[k], version, fs[k])
  }

  /** The first fragment of a fresh directory goes to file 0. */
  lemma FirstFile(before: map<nat, seq<Byte>>, first: nat)
    requires Opened(map[], before, first)
    ensures first == 0 && before == map[0 := []]
  {
    var dir: map<nat, seq<Byte>> := map[];
    assert 0 !in dir;
  }

  lemma DiskHolds(before: map<nat, seq<Byte>>, version: seq<Byte>, frags: seq<seq<Byte>>, fs: seq<seq<Placed>>,
                  max: nat, gap: bool)
    requires max > 0 && |version| == VERSION_SIZE && before.Keys <= {0} && |frags| > 0 && AllHold(frags, version, fs)
    ensures
      var disk, n := Disk(before, 0, frags, max), |frags| % max;
      if gap then OnDisk(disk - {n}, version, fs, max, Some(n)) else OnDisk(disk, version, fs, max, None)
  {
    hide HoldsFragment, Disk;
    RingKeepsNewest(before, frags, max);
  }

  lemma EntriesTakeSpace(ps: seq<Placed>)
    requires AllPlaced(ps) && ps != []
    ensures Layout(ps) != []
  {
    hide Encode;
    var n := |ps| - 1;
    assert PlacedOk(ps[n]);
    EncodedSize(ps[n].r, ps[n].kept);
    FixedSizes(ps[n].r.kind);
    assert Layout(ps) == LayoutTo(ps, n) + Encode(ps[n].r, ps[n].kept);
  }

  /** The beginning of a file is a file of no entries, or cannot be read. */
  lemma TornFile(full: seq<Byte>, kept: nat, version: seq<Byte>, ps: seq<Placed>)
    requires Chain(ps) && IsFile(full, version, Layout(ps)) && kept < |full|
    ensures
      if ps == [] && kept >= HEADER_SIZE then HoldsFragment(full[..kept], version, [])
      else Unreadable(full[..kept])
  {
    hide Legal, Meaning, Le;
    var data := full[..kept];
    if ps != [] {
      EntriesTakeSpace(ps);
      assert Cut(data, full, version, Layout(ps));
    } else if kept >= HEADER_SIZE {
      assert data[..VERSION_SIZE] == full[..VERSION_SIZE];
      assert data[VERSION_SIZE..HEADER_SIZE] == full[VERSION_SIZE..HEADER_SIZE];
      EmptyFragment([]);
    }
  }

  /** All that is left of a fragment without entries may be enough for a reader. */
  ghost predicate Salvaged(damage: Damage, lost: seq<Placed>)
  {
    damage.Torn? && lost == [] && damage.kept >= HEADER_SIZE
  }

  ghost function FsOf(th: Thread): seq<seq<Placed>>
    reads th, th.writer
  {
    if Salvaged(th.writer.damage, th.current) then th.flushed + [[]] else th.flushed
  }

  ghost function GapOf(th: Thread): Option<nat>
    reads th, th.writer
  {
    if th.writer.damage.Gone? && th.writer.maxFiles > 0 then Some(|th.flushed| % th.writer.maxFiles) else None
  }

  /** The outcome that leaves a file no reader can read: the first fragment's file, created empty, could
      not be opened; or a file was cut short and not removed, and it should hold an entry or not even
      its header is whole. */
  ghost predicate Breaks(output: Output, fs: seq<seq<Placed>>, lost: seq<Placed>)
  {
    match output
    case Stored => false
    case NotOpened => fs == []
    case NotStored(kept, unlinked) => !unlinked && (lost != [] || kept < HEADER_SIZE)
  }

  /** The file was cut short and not removed, but can still be read. */
  ghost predicate StillRead(output: Output, broken: bool)
  {
    output.NotStored? && !output.unlinked && !broken
  }

  lemma FlushedHold(th: Thread)
    requires th.Ended()
    ensures AllHold(th.writer.written, th.writer.version, th.flushed)
  {
    hide Layout, Joined, IsFile, Disk, Damaged, Opened;
    var w := th.writer;
    forall k | 0 <= k < |th.flushed| ensures HoldsFragment(w.written[k], w.version, th.flushed[k]) {
      assert Chain(th.flushed[k]) && IsFile(w.written[k], w.version, w.raws[k]);
    }
  }

  /** Nothing torn: the files are those of the fragments, or the first one is still empty. */
  lemma EndedSound(th: Thread, output: Output, had: bool)
    requires EndedWith(th, output, had) && th.writer.dir == map[] && !th.writer.damage.Torn?
    ensures
      var w := th.writer;
      && |w.version| == VERSION_SIZE && w.maxFiles > 0
      && if had && Breaks(output, th.flushed, th.current) then HasUnreadable(w.files)
         else OnDisk(w.files, w.version, th.flushed, w.maxFiles, GapOf(th))
  {
    hide Chain, Layout, Joined, IsFile, HoldsFragment, Lz4Reference.Hashes;
    var w := th.writer;
    FlushedHold(th);
    if had {
      FirstFile(w.before, w.first);
      if w.written != [] {
        hide Disk;
        DiskHolds(w.before, w.version, w.written, th.flushed, w.maxFiles, w.damage.Gone?);
      } else if w.damage.Whole? {
        assert 0 in w.files && Unreadable(w.files[0]);
      }
    }
  }

  /** A torn file: it holds a fragment without entries, or cannot be read. */
  lemma EndedTorn(th: Thread, output: Output, had: bool)
    requires EndedWith(th, output, had) && th.writer.dir == map[] && th.writer.damage.Torn?
    ensures
      var w := th.writer;
      && |w.version| == VERSION_SIZE && w.maxFiles > 0
      && if had && Breaks(output, FsOf(th), th.current) then HasUnreadable(w.files)
         else OnDisk(w.files, w.version, FsOf(th), w.maxFiles, None)
  {
    hide Chain, Layout, Joined, IsFile, HoldsFragment, Lz4Reference.Hashes, Disk, Unreadable;
    var w := th.writer;
    FirstFile(w.before, w.first);
    FlushedHold(th);
    var n, stub := FileNumber(w.first, |w.written|, w.maxFiles), w.damage.full[..w.damage.kept];
    TornFile(w.damage.full, w.damage.kept, w.version, th.current);
    FileLength(w.damage.full, w.version, w.damage.raw);
    assert n in w.files && w.files[n] == stub;
    if Salvaged(w.damage, th.current) {
      DiskExtends(w.before, w.first, w.written, stub, w.maxFiles);
      DiskHolds(w.before, w.version, w.written + [stub], th.flushed + [[]], w.maxFiles, false);
    }
  }

  lemma EndedOnDisk(th: Thread, output: Output, had: bool)
    requires EndedWith(th, output, had) && th.writer.dir == map[]
    ensures
      var w := th.writer;
      && |w.version| == VERSION_SIZE && w.maxFiles > 0
      && if had && Breaks(output, FsOf(th), th.current) then HasUnreadable(w.files)
         else OnDisk(w.files, w.version, FsOf(th), w.maxFiles, GapOf(th))
  {
    hide EndedWith, Breaks, OnDisk, HasUnreadable;
    if th.writer.damage.Torn? { EndedTorn(th, output, had); } else { EndedSound(th, output, had); }
  }

  method Start(ghost ops: seq<Op>, version: seq<Byte>, maxFiles: nat, hash16: seq<Byte> -> nat,
               hash32: seq<Byte> -> nat)
    returns (th: Thread)
    requires |version| == VERSION_SIZE && maxFiles > 0
    requires Lz4Reference.Hashes(hash16, 8192) && Lz4Reference.Hashes(hash32, 4096)
    ensures fresh(th) && fresh(th.writer) && InStep(th, ops, 0, 0)
    ensures th.writer.buffer == null && th.writer.compBuf == null
    ensures th.writer.version == version && th.writer.maxFiles == maxFiles && th.writer.dir == map[]
  {
    var w := new Writer(version, maxFiles, hash16, hash32, map[]);
    th := new Thread(w);
  }

  /** The fragments written out are those closed, and the last one if it was stored; else that one is
      lost, though a file without entries may be left of it. */
  ghost predicate Parts(p: Packed, final: Output, had: bool, fs: seq<seq<Placed>>, lost: seq<Placed>, broken: bool)
  {
    if !had then fs == [] && lost == []
    else if final.Stored? then fs == p.closed + [p.current] && lost == []
    else lost == p.current && fs == if StillRead(final, broken) then p.closed + [[]] else p.closed
  }

  /** What tracing a run leaves: the fragments written out, in order, then the fragment that was
      lost, make up the log until tracing stopped; it stops only where something went wrong. A
      fragment is lost only if the last outcome says so. There are never more fragments than
      records, and fewer if the last was not stored, unless what is left of it, without entries, is
      still a file; then it is the last fragment. A file cannot be read if and only if the last outcome, with
      something logged, breaks one; one is missing if and only if it says it was removed. */
  ghost predicate Traced(ops: seq<Op>, last: Output, max: nat, fs: seq<seq<Placed>>, lost: seq<Placed>, stop: nat,
                         gap: Option<nat>, broken: bool)
    requires max > 0
  {
    && stop <= |ops| && (stop < |ops| ==> Trouble(ops, stop))
    && var log, final := LogAt(ops, stop), Final(ops, stop, last);
    && Joined(fs) + Records(lost) == log && |fs| <= |log|
    && Parts(PackAt(ops, stop), final, log != [], fs, lost, broken)
    && (broken <==> log != [] && Breaks(final, fs, lost))
    && (log != [] && !final.Stored? ==>
          if StillRead(final, broken) then fs != [] && fs[|fs| - 1] == [] else |fs| < |log|)
    && gap == if log != [] && final.NotStored? && final.unlinked then Some(|fs| % max) else None
  }

  lemma EndedTraced(th: Thread, ops: seq<Op>, last: Output, stop: nat)
    requires stop <= |ops| && (stop < |ops| ==> Trouble(ops, stop)) && th.log == LogAt(ops, stop)
    requires EndedWith(th, Final(ops, stop, last), th.log != [])
    requires Parted(th, ops, stop, th.log != [] && Final(ops, stop, last).Stored?)
    ensures th.writer.maxFiles > 0
    ensures Traced(ops, last, th.writer.maxFiles, FsOf(th), th.current, stop, GapOf(th),
                   th.log != [] && Breaks(Final(ops, stop, last), FsOf(th), th.current))
  {
    hide Chain, Layout, IsFile, Disk, Damaged, Trouble, LogAt, StackAt, SizeAt, Opened, Joined, PackAt;
    JoinedStep(th.flushed, []);
    EmptyFragment([]);
    assert Joined(th.flushed) + [] == Joined(th.flushed);
    if th.writer.damage.Torn? { FileLength(th.writer.damage.full, th.writer.version, th.writer.damage.raw); }
  }

  /** Tracing a run in a fresh directory. */
  method Trace(ops: seq<Op>, last: Output, version: seq<Byte>, maxFiles: nat,
               hash16: seq<Byte> -> nat, hash32: seq<Byte> -> nat)
    returns (files: map<nat, seq<Byte>>, ghost fs: seq<seq<Placed>>, ghost lost: seq<Placed>, ghost stop: nat,
             ghost gap: Option<nat>, ghost broken: bool)
    requires |version| == VERSION_SIZE && maxFiles > 0 && RunFits(ops)
    requires Lz4Reference.Hashes(hash16, 8192) && Lz4Reference.Hashes(hash32, 4096)
    ensures Traced(ops, last, maxFiles, fs, lost, stop, gap, broken)
    ensures if broken then HasUnreadable(files) else OnDisk(files, version, fs, maxFiles, gap)
  {
    hide Alive, Dead, RunFits, StackAt, LogAt, SizeAt, Trouble, Lz4Reference.Hashes, Traced, OnDisk, HasUnreadable;
    hide EndedWith, Final, FsOf, GapOf, Breaks, Parted, PackAt;
    var th := Start(ops, version, maxFiles, hash16, hash32);
    ghost var w := th.writer;
    stop := 0;
    var i := 0;
    while i < |ops|
      invariant 0 <= i <= |ops| && InStep(th, ops, i, stop)
      invariant fresh(th) && fresh(w) && th.writer == w
      invariant (w.buffer != null ==> fresh(w.buffer)) && (w.compBuf != null ==> fresh(w.compBuf))
    {
      hide InStep;
      stop := Step(th, ops, i, ops[i], stop);
      i := i + 1;
    }
    Finish(th, ops, stop, last);
    EndedTraced(th, ops, last, stop);
    EndedOnDisk(th, Final(ops, stop, last), th.log != []);
    files, fs, lost, gap := th.writer.files, FsOf(th), th.current, GapOf(th);
    broken := th.log != [] && Breaks(Final(ops, stop, last), FsOf(th), th.current);
  }

  // --------------------------------------------------- what is found again

  /** The newest of `n` fragments that went to file `j`. */
  ghost function Newest(n: nat, j: nat, max: nat): (k: nat)
    requires j < max && j < n
    ensures k < n && k % max == j && n <= k + max
  {
    if (n - 1) % max == j then n - 1
    else
      SmallRemainder(j, max);
      var k := Newest(n - 1, j, max);
      assert n - 1 != k + max by {
        if n - 1 == k + max { Remainder(k + max, k / max + 1, j, max); }
      }
      k
  }

  /** The numbers below `m`, in order, without the gap. */
  ghost function Numbers(m: nat, gap: Option<nat>): (s: seq<nat>)
    ensures Sorted(s) && (forall i :: 0 <= i < |s| ==> s[i] < m)
    ensures forall j: nat :: j in s <==> j < m && gap != Some(j)
  {
    if m == 0 then []
    else if gap == Some(m - 1) then Numbers(m - 1, gap)
    else Numbers(m - 1, gap) + [m - 1]
  }

  ghost function Fewer(a: nat, b: nat): nat
  {
    if a < b then a else b
  }

  /** The fragments left, in the order of their files. */
  ghost function Ring(fs: seq<seq<Placed>>, max: nat, gap: Option<nat>): seq<seq<Placed>>
    requires max > 0
  {
    var s := Numbers(Fewer(|fs|, max), gap);
    seq(|s|, i requires 0 <= i < |s| && s[i] < |fs| && s[i] < max => fs[Newest(|fs|, s[i], max)])
  }

  /** No fragment has been overwritten, nor removed with the file of the one that failed. */
  ghost predicate Intact(fs: seq<seq<Placed>>, max: nat, gap: Option<nat>)
  {
    |fs| <= max && (gap.Some? ==> |fs| < max)
  }

  lemma {:induction false} NumbersWhole(m: nat, gap: Option<nat>)
    requires gap.Some? ==> gap.value >= m
    ensures |Numbers(m, gap)| == m && forall i :: 0 <= i < m ==> Numbers(m, gap)[i] == i
  {
    hide Sorted;
    if m > 0 { NumbersWhole(m - 1, gap); }
  }

  /** Then the files are in the order the fragments were written in. */
  lemma RingInOrder(fs: seq<seq<Placed>>, max: nat, gap: Option<nat>)
    requires 0 < max && Intact(fs, max, gap) && (gap.Some? ==> gap.value == |fs| % max)
    ensures Ring(fs, max, gap) == fs
  {
    hide Newest, Numbers;
    if gap.Some? { SmallRemainder(|fs|, max); }
    NumbersWhole(|fs|, gap);
    forall j | 0 <= j < |fs| ensures Newest(|fs|, j, max) == j {
      SmallRemainder(Newest(|fs|, j, max), max);
    }
  }

  lemma HasFirst(s: seq<nat>)
    requires s != []
    ensures s[0] in s
  {
  }

  /** Taking the last, and largest, number off. */
  lemma SortedLast(s: seq<nat>, j: nat)
    requires Sorted(s) && s != []
    ensures
      var n := |s| - 1;
      && s == s[..n] + [s[n]] && s[n] in s && Sorted(s[..n])
      && (j in s ==> j <= s[n]) && (j in s[..n] <==> j in s && j != s[n])
  {
    var n := |s| - 1;
    assert s == s[..n] + [s[n]];
  }

  /** A set of numbers can be sorted in one way only. */
  lemma {:induction false} SortedOnce(a: seq<nat>, b: seq<nat>)
    requires Sorted(a) && Sorted(b) && forall j: nat :: j in a <==> j in b
    ensures a == b
  {
    hide Sorted;
    if a == [] {
      if b != [] { HasFirst(b); }
    } else {
      HasFirst(a);
      assert b != [];
      var n, m := |a| - 1, |b| - 1;
      SortedLast(a, b[m]);
      SortedLast(b, a[n]);
      assert a[n] == b[m];
      forall j: nat ensures j in a[..n] <==> j in b[..m] {
        SortedLast(a, j);
        SortedLast(b, j);
      }
      SortedOnce(a[..n], b[..m]);
    }
  }

  /** The files of a run, in the order a reader takes them, hold the fragments left. */
  lemma RingFiles(files: map<nat, seq<Byte>>, version: seq<Byte>, fs: seq<seq<Placed>>, max: nat, gap: Option<nat>,
                  list: seq<seq<Byte>>)
    requires max > 0 && Readable(version) && OnDisk(files, version, fs, max, gap)
    requires
      var s := Numbers(Fewer(|fs|, max), gap);
      |list| == |s| && forall i :: 0 <= i < |list| ==> s[i] in files && list[i] == files[s[i]]
    ensures FilesOf(list, version, Ring(fs, max, gap))
  {
    hide HoldsFragment, Numbers;
    var s := Numbers(Fewer(|fs|, max), gap);
    forall i | 0 <= i < |list| ensures FileOf(list[i], version, Ring(fs, max, gap)[i]) {
      assert s[i] in s;
      var k := Newest(|fs|, s[i], max);
      assert k % max in files && HoldsFragment(files[k % max], version, fs[k]);
    }
  }

  /** A reader takes the files in the order of their numbers. */
  ghost predicate Listed(files: map<nat, seq<Byte>>, numbers: seq<nat>, list: seq<seq<Byte>>)
  {
    && Sorted(numbers) && (forall j: nat :: j in numbers <==> j in files)
    && |list| == |numbers| && forall i :: 0 <= i < |list| ==> numbers[i] in files && list[i] == files[numbers[i]]
  }

  lemma UnreadableListed(files: map<nat, seq<Byte>>, numbers: seq<nat>, list: seq<seq<Byte>>)
    requires Listed(files, numbers, list) && HasUnreadable(files)
    ensures exists i :: 0 <= i < |list| && Unreadable(list[i])
  {
    hide Unreadable, Sorted;
    var j: nat :| j in files && Unreadable(files[j]);
    assert j in numbers;
    var i :| 0 <= i < |numbers| && numbers[i] == j;
    assert Unreadable(list[i]);
  }

  /** The files listed are those of the fragments left, if their version is one that is read. */
  lemma RingListed(files: map<nat, seq<Byte>>, numbers: seq<nat>, list: seq<seq<Byte>>, version: seq<Byte>,
                   fs: seq<seq<Placed>>, max: nat, gap: Option<nat>)
    requires max > 0 && |version| == VERSION_SIZE && OnDisk(files, version, fs, max, gap)
    requires Listed(files, numbers, list)
    ensures |list| == |Ring(fs, max, gap)|
    ensures Readable(version) || list == [] ==> FilesOf(list, version, Ring(fs, max, gap))
    ensures forall i :: 0 <= i < |list| && !Readable(version) ==> Unreadable(list[i])
  {
    hide HoldsFragment, Readable, Sorted, Newest, Numbers, Unreadable;
    SortedOnce(numbers, Numbers(Fewer(|fs|, max), gap));
    if Readable(version) { RingFiles(files, version, fs, max, gap, list); }
    forall i | 0 <= i < |list| && !Readable(version) ensures Unreadable(list[i]) {
      OldFile(files, version, fs, max, gap, numbers[i]);
    }
  }

  /** Every file holds its version. */
  lemma OldFile(files: map<nat, seq<Byte>>, version: seq<Byte>, fs: seq<seq<Placed>>, max: nat, gap: Option<nat>,
                j: nat)
    requires max > 0 && |version| == VERSION_SIZE && OnDisk(files, version, fs, max, gap) && j in files
    requires !Readable(version)
    ensures Unreadable(files[j])
  {
    hide Readable, Chain, Layout, Legal, Meaning;
    var k := Newest(|fs|, j, max);
    assert k % max in files && HoldsFragment(files[k % max], version, fs[k]);
  }

  /** While no fragment has been overwritten or removed, the fragments left show a beginning of the log. */
  lemma RingShows(fs: seq<seq<Placed>>, max: nat, gap: Option<nat>)
    requires max > 0 && Intact(fs, max, gap) && (gap.Some? ==> gap.value == |fs| % max)
    ensures SeenAll(Ring(fs, max, gap), |Ring(fs, max, gap)|) == SeenLog(Joined(fs)) <==> NoZeroFree(Joined(fs))
  {
    hide Ring, SeenAll, SeenLog, NoZeroFree, JoinedTo;
    RingInOrder(fs, max, gap);
    SeenAllIsLog(fs, |fs|);
  }

  /** If nothing went wrong, nothing is lost or broken, and there is one fragment if and only if all
      entries fit in one. */
  lemma TracedWhole(ops: seq<Op>, max: nat, fs: seq<seq<Placed>>, lost: seq<Placed>, stop: nat, gap: Option<nat>,
                    broken: bool)
    requires max > 0 && Untroubled(ops) && Traced(ops, Stored, max, fs, lost, stop, gap, broken)
    ensures !broken && gap == None && Joined(fs) == LogAt(ops, |ops|) && |fs| <= |LogAt(ops, |ops|)|
    ensures |fs| <= 1 <==> FitsOne(ops, |ops|)
  {
    hide LogAt, Trouble, Joined, PackAt, FitsOne;
    EmptyFragment([]);
    assert Joined(fs) + [] == Joined(fs);
    OneFragment(ops, |ops|);
    ClosedFewer(ops, |ops|);
  }

  /** A run is traced in a fresh directory and the files are dumped, whatever memory and system calls
      fail on the way. The dump fails if and only if a file is broken, which the outcome of the last
      attempt to write out a fragment decides, or there are files of a version older than 0.2.0.
      Otherwise it shows the fragments left, in the order of their files. While none has been
      overwritten or removed, that is a beginning of the log: every event once, in order, with the
      whole stack it happened on, exactly if no event was an all-zero free. If nothing went wrong it
      is the whole log, as long as there are not more fragments than files; there is but one if and
      only if all entries fit in one. */
  method TraceAndDump(ops: seq<Op>, last: Output, version: seq<Byte>, maxFiles: nat,
                      hash16: seq<Byte> -> nat, hash32: seq<Byte> -> nat)
    returns (entries: seq<Decoded>, ok: bool, ghost fs: seq<seq<Placed>>, ghost lost: seq<Placed>, ghost stop: nat,
             ghost gap: Option<nat>, ghost broken: bool)
    requires |version| == VERSION_SIZE && maxFiles > 0 && RunFits(ops)
    requires Lz4Reference.Hashes(hash16, 8192) && Lz4Reference.Hashes(hash32, 4096)
    ensures Traced(ops, last, maxFiles, fs, lost, stop, gap, broken)
    ensures ok <==> !broken && (Readable(version) || Ring(fs, maxFiles, gap) == [])
    ensures version[5..] == [0, 2, 0] ==> (ok <==> !broken)
    ensures ok ==> entries == SeenAll(Ring(fs, maxFiles, gap), |Ring(fs, maxFiles, gap)|)
    ensures ok && Intact(fs, maxFiles, gap) ==> (entries == SeenLog(Joined(fs)) <==> NoZeroFree(Joined(fs)))
    ensures Untroubled(ops) && last.Stored? ==> !broken && (|fs| <= 1 <==> FitsOne(ops, |ops|))
    ensures Untroubled(ops) && last.Stored? && ok && |fs| <= maxFiles ==>
      (entries == SeenLog(LogAt(ops, |ops|)) <==> NoZeroFree(LogAt(ops, |ops|)))
    ensures Untroubled(ops) && last.Stored? && ok && (FitsOne(ops, |ops|) || |LogAt(ops, |ops|)| <= maxFiles) ==>
      (entries == SeenLog(LogAt(ops, |ops|)) <==> NoZeroFree(LogAt(ops, |ops|)))
  {
    hide RunFits, LogAt, Trouble, SeenAll, SeenLog, NoZeroFree, Lz4Reference.Hashes, Unreadable, HasUnreadable;
    hide Sorted, Joined, OnDisk, FilesOf, Untroubled, Ring, PackAt, FitsOne;
    var files;
    files, fs, lost, stop, gap, broken := Trace(ops, last, version, maxFiles, hash16, hash32);
    var numbers := Discover(files);
    var list := seq(|numbers|, i requires 0 <= i < |numbers| && numbers[i] in files => files[numbers[i]]);
    var reader := new Reader(MAX_INPUT_SIZE);
    entries, ok := reader.ReadEntries(list);
    if broken {
      UnreadableListed(files, numbers, list);
    } else {
      RingListed(files, numbers, list, version, fs, maxFiles, gap);
      assert list != [] && !Readable(version) ==> Unreadable(list[0]);
    }
    CurrentReadable(version);
    if Untroubled(ops) && last.Stored? { TracedWhole(ops, maxFiles, fs, lost, stop, gap, broken); }
    if Intact(fs, maxFiles, gap) { RingShows(fs, maxFiles, gap); }
  }

  lemma LoneFragment(fs: seq<seq<Placed>>)
    requires |fs| <= 1
    ensures fs == [] || fs[0] == [] ==> Joined(fs) == []
  {
    if fs != [] && fs[0] == [] {
      JoinedStep([], []);
      assert fs == [] + [[]];
    }
  }

  /** The shortest runs whose dump fails: one event that fits, and an outcome at the end that leaves a
      file no reader can read. */
  method FailingDump(op: Op, last: Output, version: seq<Byte>, maxFiles: nat,
                     hash16: seq<Byte> -> nat, hash32: seq<Byte> -> nat)
    returns (entries: seq<Decoded>, ok: bool)
    requires op.Event? && ValidType(op.kind) && Smooth(op.io) && 8 <= op.traceSize <= 0x7E00_0000 && RunFits([op])
    requires last.NotOpened? || (last.NotStored? && !last.unlinked)
    requires |version| == VERSION_SIZE && maxFiles > 0
    requires Lz4Reference.Hashes(hash16, 8192) && Lz4Reference.Hashes(hash32, 4096)
    ensures !ok
  {
    hide Lz4Reference.Hashes, Numbers, Newest, RunFits, NoZeroFree, SeenLog, ValidType;
    ghost var fs, lost, stop, gap, broken;
    entries, ok, fs, lost, stop, gap, broken := TraceAndDump([op], last, version, maxFiles, hash16, hash32);
    assert SizeAt([op], 0) == None && !Trouble([op], 0);
    assert LogAt([op], 0) == [] && |LogAt([op], 1)| == 1;
    EmptyFragment([]);
    LoneFragment(fs);
  }

  /** The shortest run whose log a dump does not show, at any trace size it fits. */
  lemma ZeroFreeRun(traceSize: nat, io: Outcomes)
    requires 40 <= traceSize <= MAX_INPUT_SIZE
    ensures
      var ops := [Event(FREE, 0, FreeBody(0, 0), traceSize, io)];
      RunFits(ops) && LogAt(ops, 1) == [Record(FREE, 0, FreeBody(0, 0), [])] && !NoZeroFree(LogAt(ops, 1))
  {
    var ops := [Event(FREE, 0, FreeBody(0, 0), traceSize, io)];
    assert StackAt(ops, 0) == [] && SizeAt(ops, 0) == None && LogAt(ops, 0) == [];
    assert LogAt(ops, 1) == [Record(FREE, 0, FreeBody(0, 0), [])];
    assert ZeroFree(LogAt(ops, 1)[0]);
  }

  lemma {:induction false} HiddenFrom(ps: seq<Placed>, j: nat, i: nat)
    requires j <= i < |ps| && ZeroFree(ps[i].r)
    ensures |SeenFrom(ps, j)| <= i - j
    decreases i - j
  {
    hide ZeroFree, Seen;
    if j < i { HiddenFrom(ps, j + 1, i); }
  }

  /** An all-zero free hides itself and all that follows it in its fragment. */
  lemma ZeroFreeHides(ps: seq<Placed>, i: nat)
    requires i < |ps| && ZeroFree(ps[i].r)
    ensures |SeenFrom(ps, 0)| <= i
  {
    HiddenFrom(ps, 0, i);
  }

  lemma {:induction false} JoinedToHolds(fs: seq<seq<Placed>>, n: nat, k: nat, i: nat)
    requires k < n <= |fs| && i < |fs[k]|
    ensures fs[k][i].r in JoinedTo(fs, n)
  {
    if k < n - 1 {
      JoinedToHolds(fs, n - 1, k, i);
    } else {
      assert Records(fs[k])[i] == fs[k][i].r;
    }
  }

  lemma JoinedHolds(fs: seq<seq<Placed>>, k: nat, i: nat)
    requires k < |fs| && i < |fs[k]|
    ensures fs[k][i].r in Joined(fs)
  {
    JoinedToHolds(fs, |fs|, k, i);
  }

  lemma {:induction false} NothingSeen(fs: seq<seq<Placed>>, n: nat)
    requires n <= |fs| && forall k :: 0 <= k < |fs| ==> SeenFrom(fs[k], 0) == []
    ensures SeenAll(fs, n) == []
  {
    if n > 0 { NothingSeen(fs, n - 1); }
  }

  /** That run traced and dumped, with nothing going wrong: one event is logged, none is shown. */
  method ZeroFreeDump(traceSize: nat, version: seq<Byte>, maxFiles: nat,
                      hash16: seq<Byte> -> nat, hash32: seq<Byte> -> nat)
    returns (entries: seq<Decoded>, ok: bool)
    requires 40 <= traceSize <= MAX_INPUT_SIZE
    requires |version| == VERSION_SIZE && maxFiles > 0 && version[5..] == [0, 2, 0]
    requires Lz4Reference.Hashes(hash16, 8192) && Lz4Reference.Hashes(hash32, 4096)
    ensures ok && entries == []
  {
    hide Lz4Reference.Hashes, Ring, Joined, RunFits, NoZeroFree, SeenLog, SeenAll, Traced, Untroubled, LogAt, FitsOne;
    hide Intact, Readable;
    var io := Outcomes(true, true, None, Stored);
    var ops := [Event(FREE, 0, FreeBody(0, 0), traceSize, io)];
    ZeroFreeRun(traceSize, io);
    ghost var fs, lost, stop, gap, broken;
    entries, ok, fs, lost, stop, gap, broken := TraceAndDump(ops, Stored, version, maxFiles, hash16, hash32);
    OneSmooth(ops);
    TracedWhole(ops, maxFiles, fs, lost, stop, gap, broken);
    ZeroFreeUnseen(fs, maxFiles, gap);
  }

  lemma OneSmooth(ops: seq<Op>)
    requires |ops| == 1 && ops[0].Event? && Smooth(ops[0].io) && 8 <= ops[0].traceSize <= 0x7E00_0000
    ensures Untroubled(ops)
  {
    assert SizeAt(ops, 0) == None;
  }

  /** Nothing is seen of fragments that hold such a free and nothing else. */
  lemma ZeroFreeUnseen(fs: seq<seq<Placed>>, max: nat, gap: Option<nat>)
    requires max > 0 && Joined(fs) == [Record(FREE, 0, FreeBody(0, 0), [])]
    ensures SeenAll(Ring(fs, max, gap), |Ring(fs, max, gap)|) == []
  {
    hide Joined, Numbers, Newest;
    forall k | 0 <= k < |fs| ensures SeenFrom(fs[k], 0) == [] {
      if fs[k] != [] { JoinedHolds(fs, k, 0); }
    }
    NothingSeen(Ring(fs, max, gap), |Ring(fs, max, gap)|);
  }

  // -------------------------------------------------------------- fragments

  /** Before the first entry with a stack, no stack has been seen. */
  lemma {:induction false} NoneBefore(ps: seq<Placed>, n: nat)
    requires n <= |ps| && forall j :: 0 <= j < n ==> !WithStack(ps[j].r.kind)
    ensures Prev(ps, n) == None
  {
    if n > 0 { NoneBefore(ps, n - 1); }
  }

  /** In every fragment of every run the first entry with a stack writes all of it: its `popped`
      is 0. */
  lemma FirstStackWhole(ps: seq<Placed>, i: nat)
    requires Chain(ps) && i < |ps| && WithStack(ps[i].r.kind)
    requires forall j :: 0 <= j < i ==> !WithStack(ps[j].r.kind)
    ensures ps[i].kept == 0 && Tail(ps[i].r, 0) == Le(0, 4) + Le(|ps[i].r.stack|, 4) + Words(ps[i].r.stack)
  {
    NoneBefore(ps, i);
    assert LinkedAt(ps, i);
    assert ps[i].r.stack[0..] == ps[i].r.stack;
  }
}
