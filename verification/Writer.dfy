/** `writer.c` with writing enabled: one buffer that fills up with entries and is flushed, as a
    compressed fragment, into a ring of numbered files. */
module Writer {
  import opened Bytes
  import opened Entries
  import opened Lz4Format
  import opened TraceReader
  import opened TraceDump
  import Lz4Compress
  import Lz4Reference

  // ---------------------------------------------------------------- files

  /** The file number of the `k`-th fragment, when the first went to file `first`. */
  ghost function FileNumber(first: nat, k: nat, max: nat): nat
    requires max > 0
  {
    if k == 0 then first else (first + k) % max
  }

  /** The directory after writing the fragments `frags` in turn, over what was there before. */
  ghost function Disk(before: map<nat, seq<Byte>>, first: nat, frags: seq<seq<Byte>>, max: nat): map<nat, seq<Byte>>
    requires max > 0
  {
    if frags == [] then before
    else
      var n := |frags| - 1;
      Disk(before, first, frags[..n], max)[FileNumber(first, n, max) := frags[n]]
  }

  ghost function Damaged(files: map<nat, seq<Byte>>, n: nat, damage: Damage): map<nat, seq<Byte>>
  {
    match damage
    case Whole => files
    case Gone => files - {n}
    case Torn(full, kept, _) => files[n := if kept <= |full| then full[..kept] else full]
  }

  lemma DiskExtends(before: map<nat, seq<Byte>>, first: nat, frags: seq<seq<Byte>>, f: seq<Byte>, max: nat)
    requires max > 0
    ensures Disk(before, first, frags + [f], max)
      == Disk(before, first, frags, max)[FileNumber(first, |frags|, max) := f]
  {
    assert (frags + [f])[..|frags|] == frags;
  }

  /** From a fresh directory every file left holds a fragment, the one it holds is the newest
      that went there, and no newer fragment is missing: the last `max` fragments are left. */
  lemma {:induction false} RingKeepsNewest(before: map<nat, seq<Byte>>, frags: seq<seq<Byte>>, max: nat)
    requires max > 0 && before.Keys <= {0} && |frags| > 0
    ensures
      var disk, n := Disk(before, 0, frags, max), |frags|;
      && (forall k: nat :: k < n && n <= k + max ==> k % max in disk && disk[k % max] == frags[k])
      && (forall j: nat :: j in disk <==> j < max && j < n)
    decreases |frags|
  {
    var n := |frags| - 1;
    var less := frags[..n];
    var old_ := Disk(before, 0, less, max);
    var disk := Disk(before, 0, frags, max);
    assert disk == old_[n % max := frags[n]] by { if n == 0 { assert 0 % max == 0; } }
    if n == 0 {
      SmallRemainder(0, max);
      assert disk == before[0 := frags[0]];
      forall j | j in before ensures j == 0 { assert j in before.Keys; }
    } else {
      RingKeepsNewest(before, less, max);
      forall k: nat | k < n + 1 && n + 1 <= k + max ensures k % max in disk && disk[k % max] == frags[k] {
        if k < n {
          DistinctRemainders(k, n, max);
          assert frags[k] == less[k];
        }
      }
      forall j: nat ensures j in disk <==> j < max && j < n + 1 {
        if n < max { SmallRemainder(n, max); }
      }
    }
  }

  lemma SmallRemainder(n: nat, max: nat)
    requires n < max
    ensures n % max == n
  {
  }

  lemma AtLeast(d: int, max: nat)
    requires d >= 1
    ensures d * max >= max
  {
  }

  lemma Remainder(n: nat, q: int, r: nat, max: nat)
    requires r < max && n == q * max + r
    ensures n % max == r
  {
    var d := q - n / max;
    assert d * max == n % max - r;
    if d >= 1 { AtLeast(d, max); }
    if d <= -1 { AtLeast(-d, max); }
  }

  /** Two numbers less than `max` apart leave different remainders. */
  lemma DistinctRemainders(k: nat, n: nat, max: nat)
    requires max > 0 && k < n < k + max
    ensures k % max != n % max
  {
    var q, r := k / max, k % max;
    if r + (n - k) < max {
      Remainder(n, q, r + (n - k), max);
    } else {
      Remainder(n, q + 1, r + (n - k) - max, max);
    }
  }

  // --------------------------------------------------------------- writing

  /** `validate_trace_size_` for compressed fragments. */
  predicate ValidTraceSize(size: nat)
  {
    VERSION_SIZE <= size <= MAX_INPUT_SIZE
  }

  /** How writing out a fragment ends: stored; its file not opened; or opened and so truncated, but
      not written beyond `kept` bytes, and then removed unless that fails too. */
  datatype Output = Stored | NotOpened | NotStored(kept: nat, unlinked: bool)

  /** What that does to the file: nothing, or it is gone, or it holds only the beginning of what it
      should. */
  datatype Damage = Whole | Gone | Torn(full: seq<Byte>, kept: nat, raw: seq<Byte>)

  /** How much of a file a write that fails can leave. */
  function Kept(kept: nat, full: nat): (k: nat)
    ensures k <= kept && (full > 0 ==> k < full) && (kept < full ==> k == kept)
  {
    if kept < full then kept else if full > 0 then full - 1 else 0
  }

  /** The outcomes of the system calls one reservation may make: mapping the buffer, allocating the
      compression buffer, creating the first file (which may fail at one number) and writing out a
      fragment. */
  datatype Outcomes = Outcomes(mapped: bool, granted: bool, unopenable: Option<nat>, output: Output)

  /** The search for the first file gets to the number at which creating it fails. */
  ghost predicate Blocked(files: map<nat, seq<Byte>>, unopenable: Option<nat>)
  {
    unopenable.Some? && forall j: nat :: j < unopenable.value ==> j in files
  }

  /** The first fragment gets the first number not taken. */
  ghost predicate Opened(dir: map<nat, seq<Byte>>, before: map<nat, seq<Byte>>, first: nat)
  {
    && before == dir[first := []]
    && first !in dir && forall j: nat :: j < first ==> j in dir
  }

  /** The search of `first_fragment_`. */
  method FirstFree(files: map<nat, seq<Byte>>, unopenable: Option<nat>) returns (n: Option<nat>)
    ensures n.None? <==> Blocked(files, unopenable)
    ensures n.Some? ==> n.value !in files && forall j: nat :: j < n.value ==> j in files
  {
    var k := 0;
    while unopenable != Some(k) && k in files
      invariant forall j: nat :: j < k ==> j in files && unopenable != Some(j)
      decreases |set j | j in files && j >= k|
    {
      ghost var left := set j | j in files && j >= k;
      ghost var next := set j | j in files && j >= k + 1;
      assert left == next + {k};
      k := k + 1;
    }
    n := if unopenable == Some(k) then None else Some(k);
  }

  class Writer {
    const version: seq<Byte>
    const maxFiles: nat
    const hash16: seq<Byte> -> nat
    const hash32: seq<Byte> -> nat

    var initd: bool
    var failed: bool
    var buffer: array?<Byte>
    var compBuf: array?<Byte>
    var size: nat
    var offset: nat
    var enumerator: nat

    /** The files of this thread. */
    var files: map<nat, seq<Byte>>

    /** The directory at the start and when the first fragment was given its file, that file, and
        what has been written since: the contents of the files and the raw entries in them. */
    ghost const dir: map<nat, seq<Byte>>
    ghost var before: map<nat, seq<Byte>>
    ghost var first: nat
    ghost var written: seq<seq<Byte>>
    ghost var raws: seq<seq<Byte>>

    /** What happened to the file of the next fragment. */
    ghost var damage: Damage

    ghost predicate ValidSetup()
    {
      && |version| == VERSION_SIZE && maxFiles > 0
      && Lz4Reference.Hashes(hash16, 8192) && Lz4Reference.Hashes(hash32, 4096)
    }

    /** The files are what writing the fragments in turn leaves, each a file of its entries. */
    ghost predicate ValidFiles()
      reads this`files, this`before, this`first, this`written, this`raws, this`damage
    {
      && ValidSetup() && |written| == |raws|
      && (forall k :: 0 <= k < |raws| ==> IsFile(written[k], version, raws[k]))
      && files == Damaged(Disk(before, first, written, maxFiles), FileNumber(first, |written|, maxFiles), damage)
      && (damage.Torn? ==> damage.kept < |damage.full| && IsFile(damage.full, version, damage.raw))
      && ((written == [] && damage.Whole? && before == dir) || Opened(dir, before, first))
    }

    /** The offset stays inside the buffer, and both buffers are large enough for compression
        never to fail. */
    ghost predicate ValidBuffer()
      reads this, buffer, compBuf
    {
      && (buffer == null && initd && !failed ==>
            written == raws == [] && files == before == dir && size == 0 && offset == 0)
      && (initd && !failed ==> damage.Whole?)
      && (buffer != null ==>
            && initd && !failed && compBuf != null && buffer != compBuf
            && VERSION_SIZE <= offset <= size == buffer.Length && size <= MAX_INPUT_SIZE
            && compBuf.Length == CompressBound(size)
            && buffer[..VERSION_SIZE] == version)
    }

    ghost predicate Valid()
      reads this, buffer, compBuf
    {
      && ValidSetup() && ValidFiles() && ValidBuffer()
      && (buffer != null ==> Opened(dir, before, first) && enumerator == FileNumber(first, |written|, maxFiles))
    }

    /** `coldtrace_writer_init` for a thread whose files are `files`. */
    constructor (version: seq<Byte>, maxFiles: nat, hash16: seq<Byte> -> nat, hash32: seq<Byte> -> nat,
                 files: map<nat, seq<Byte>>)
      requires |version| == VERSION_SIZE && maxFiles > 0
      requires Lz4Reference.Hashes(hash16, 8192) && Lz4Reference.Hashes(hash32, 4096)
      ensures Valid() && initd && !failed && buffer == null && compBuf == null
      ensures this.files == files == dir && raws == []
      ensures this.version == version && this.maxFiles == maxFiles
    {
      this.version, this.maxFiles, this.hash16, this.hash32 := version, maxFiles, hash16, hash32;
      initd, failed, buffer, compBuf, size, offset, enumerator := true, false, null, null, 0, 0, 0;
      this.files, dir, before, first, written, raws, damage := files, files, files, 0, [], [], Whole;
    }

    /** `coldtrace_writer_new_trace`: would `n` more bytes overflow the fragment, given the trace
        size configured now? */
    predicate NewTrace(n: nat, traceSize: nat)
      reads this
    {
      offset + n > if traceSize < size then traceSize else size
    }

    /** A buffer can be had: the writer works, and has one or can get one. */
    ghost predicate Usable(traceSize: nat, io: Outcomes)
      reads this
    {
      initd && !failed &&
      (buffer != null ||
       (8 <= traceSize <= 0x7E00_0000 && io.mapped && io.granted && !Blocked(files, io.unopenable)))
    }

    /** Writing has ended with this outcome of the last attempt to write out a fragment, or, if there
        was never a buffer, without any. */
    ghost predicate Left(output: Output, had: bool)
      reads this
    {
      && buffer == null
      && (if had then Opened(dir, before, first) else written == [] && damage.Whole? && before == dir)
      && (had ==> match output
            case Stored => damage.Whole? && written != []
            case NotOpened => damage.Whole?
            case NotStored(kept, unlinked) =>
              if unlinked then damage.Gone? else damage.Torn? && damage.kept == Kept(kept, |damage.full|))
    }

    /** `fail_`. */
    method Fail()
      modifies this`buffer, this`compBuf, this`failed
      ensures buffer == null && compBuf == null && failed
    {
      buffer, compBuf, failed := null, null, true;
    }

    /** `first_fragment_`: the first number not taken, and an empty file there. */
    method FirstFragment(unopenable: Option<nat>) returns (ok: bool)
      requires ValidFiles() && written == [] && damage.Whole? && files == before == dir
      modifies this`enumerator, this`files, this`before, this`first
      ensures ValidFiles() && (ok <==> !Blocked(dir, unopenable))
      ensures if ok then Opened(dir, before, first) && enumerator == first else before == dir
    {
      hide IsFile, Lz4Reference.Hashes, Blocked;
      var n := FirstFree(files, unopenable);
      if n.None? { return false; }
      enumerator := n.value;
      files := files[enumerator := []];
      before, first := files, enumerator;
      ok := true;
    }

    /** `begin_fragment_`. */
    method BeginFragment()
      requires buffer != null && buffer.Length >= VERSION_SIZE && |version| == VERSION_SIZE
      modifies this`offset, buffer
      ensures offset == VERSION_SIZE && buffer[..VERSION_SIZE] == version
    {
      Store(buffer, 0, version);
      offset := VERSION_SIZE;
      assert buffer[..VERSION_SIZE] == buffer[0..VERSION_SIZE];
    }

    /** The allocations of `ensure_buffer_`, and the first fragment. */
    method Allocate(io: Outcomes) returns (ok: bool)
      requires ValidSetup() && ValidFiles() && initd && !failed && buffer == null && ValidTraceSize(size)
      requires written == raws == [] && damage.Whole? && files == before == dir
      modifies this`buffer, this`compBuf, this`failed, this`offset, this`enumerator, this`files, this`before, this`first
      ensures Valid() && ok == (buffer != null) == !failed
      ensures ok <==> io.granted && !Blocked(dir, io.unopenable)
      ensures ok ==> fresh(buffer) && fresh(compBuf) && offset == VERSION_SIZE
      ensures !ok ==> compBuf in {null, old(compBuf)} && forall output :: Left(output, false)
    {
      hide Disk, Damaged, IsFile, Lz4Reference.Hashes, CompressBound, Opened, Blocked, ValidFiles;
      buffer := new Byte[size];
      if !io.granted {
        Fail();
        return false;
      }
      compBuf := new Byte[CompressBound(size)];
      ok := FirstFragment(io.unopenable);
      if !ok {
        Fail();
        return;
      }
      BeginFragment();
    }

    /** `ensure_buffer_`. */
    method EnsureBuffer(traceSize: nat, io: Outcomes) returns (ok: bool)
      requires Valid()
      modifies this
      ensures Valid() && ok == (buffer != null) && initd == old(initd) && raws == old(raws)
      ensures ok <==> old(Usable(traceSize, io))
      ensures failed <==> old(failed || (initd && !Usable(traceSize, io)))
      ensures !ok ==> compBuf in {null, old(compBuf)}
      ensures old(failed || !initd) ==> unchanged(this)
      ensures !ok && initd && !old(failed) ==> Left(io.output, false)
      ensures old(buffer) != null ==>
        buffer == old(buffer) && compBuf == old(compBuf) && size == old(size) && offset == old(offset)
      ensures old(buffer) == null && ok ==>
        fresh(buffer) && fresh(compBuf) && size == traceSize && offset == VERSION_SIZE && raws == []
    {
      hide Disk, Damaged, IsFile, Lz4Reference.Hashes, CompressBound, Opened, Blocked, ValidFiles;
      if !initd || failed { return false; }
      if buffer != null { return true; }
      size, offset, enumerator := traceSize, 0, 0;
      if !ValidTraceSize(traceSize) || !io.mapped {
        failed := true;
        return false;
      }
      ok := Allocate(io);
    }

    /** The file of the current fragment: the compressor has room for any, so it never fails. */
    method Compressed() returns (data: seq<Byte>)
      requires Valid() && buffer != null
      modifies compBuf
      ensures IsFile(data, version, buffer[VERSION_SIZE..offset])
    {
      hide Disk, Damaged, Lz4Reference.Hashes, Opened, Legal, Meaning, Le, FileNumber;
      var raw := buffer[VERSION_SIZE..offset];
      var comp := Lz4Compress.CompressFast(raw, compBuf, hash16, hash32);
      assert comp > 0;
      data := version + Le(|raw|, 4) + compBuf[..comp];
      assert data[..VERSION_SIZE] == version && data[VERSION_SIZE..HEADER_SIZE] == Le(|raw|, 4);
      assert data[HEADER_SIZE..] == compBuf[..comp];
    }

    /** `flush_`. */
    method Flush(output: Output)
      requires Valid() && buffer != null
      modifies this`files, this`written, this`raws, this`damage, this`buffer, this`compBuf, this`failed, compBuf
      ensures ValidFiles() && failed == !output.Stored?
      ensures output.Stored? ==>
        && buffer == old(buffer) && compBuf == old(compBuf) && damage.Whole?
        && raws == old(raws) + [buffer[VERSION_SIZE..offset]]
        && |written| == |old(written)| + 1 && written[..|old(written)|] == old(written)
        && files == old(files)[enumerator := written[|old(written)|]]
      ensures !output.Stored? ==>
        && buffer == null && compBuf == null && raws == old(raws) && written == old(written) && Left(output, true)
        && (damage.Torn? ==> damage.raw == old(buffer[VERSION_SIZE..offset]))
    {
      hide IsFile, Lz4Reference.Hashes, Opened, Disk, FileNumber, CompressBound;
      ghost var raw := buffer[VERSION_SIZE..offset];
      var data := Compressed();
      FileLength(data, version, raw);
      match output
      case NotOpened =>
        Fail();
      case NotStored(kept, unlinked) =>
        if unlinked {
          files := files - {enumerator};
          damage := Gone;
        } else {
          files := files[enumerator := data[..Kept(kept, |data|)]];
          damage := Torn(data, Kept(kept, |data|), raw);
        }
        Fail();
      case Stored =>
        files := files[enumerator := data];
        DiskExtends(before, first, written, data, maxFiles);
        written, raws := written + [data], raws + [raw];
    }

    /** `new_trace_` with `advance_fragment_`. */
    method NewFragment(output: Output)
      requires Valid() && buffer != null
      modifies this, buffer, compBuf
      ensures Valid() && initd && failed == !output.Stored?
      ensures output.Stored? ==>
        && buffer == old(buffer) && compBuf == old(compBuf) && size == old(size)
        && offset == VERSION_SIZE && raws == old(raws) + [old(buffer[VERSION_SIZE..offset])]
      ensures !output.Stored? ==>
        && buffer == null && compBuf == null && raws == old(raws) && Left(output, true)
        && (damage.Torn? ==> damage.raw == old(buffer[VERSION_SIZE..offset]))
    {
      hide Disk, Damaged, IsFile, Lz4Reference.Hashes, Opened, CompressBound;
      Flush(output);
      if buffer == null { return; }
      enumerator := (enumerator + 1) % maxFiles;
      NextFileNumber(first, |written| - 1, maxFiles);
      BeginFragment();
    }

    /** Reserving `n` bytes writes out the current fragment: they would not fit behind what is there, in
        the size configured now or in the buffer. */
    ghost predicate Rolls(n: nat, traceSize: nat)
      reads this
    {
      buffer != null && !(offset + n <= traceSize && offset + n <= size)
    }

    /** `coldtrace_writer_reserve`. The caller sees to it that the entry fits an empty fragment:
        after rolling over nothing is checked again. */
    method Reserve(n: nat, traceSize: nat, io: Outcomes) returns (at: Option<nat>)
      requires Valid()
      requires Usable(traceSize, io) ==> VERSION_SIZE + n <= if buffer != null then size else traceSize
      modifies this, buffer, compBuf
      ensures Valid() && at.Some? == (buffer != null) && initd == old(initd)
      ensures at.Some? <==> old(Usable(traceSize, io) && (Rolls(n, traceSize) ==> io.output.Stored?))
      ensures at.None? ==> raws == old(raws) && (initd || old(failed) ==> failed) && compBuf in {null, old(compBuf)}
      ensures old(failed || !initd) ==> unchanged(this)
      ensures at.None? && initd && !old(failed) ==> Left(io.output, old(buffer) != null)
      ensures at.None? && old(buffer) != null && damage.Torn? ==> damage.raw == old(buffer[VERSION_SIZE..offset])
      ensures at.Some? ==> offset == at.value + n && size == if old(buffer) == null then traceSize else old(size)
      ensures at.Some? && old(buffer) == null ==>
        fresh(buffer) && fresh(compBuf) && at.value == VERSION_SIZE && raws == []
      ensures at.Some? && old(buffer) != null ==> buffer == old(buffer) && compBuf == old(compBuf)
      ensures at.Some? && old(Rolls(n, traceSize)) ==>
        at.value == VERSION_SIZE && raws == old(raws) + [old(buffer[VERSION_SIZE..offset])]
      ensures at.Some? && old(buffer != null && offset + n <= traceSize && offset + n <= size) ==>
        at.value == old(offset) && raws == old(raws) && buffer[..at.value] == old(buffer[..offset])
    {
      hide Disk, Damaged, IsFile, Lz4Reference.Hashes, CompressBound, Opened, Blocked, ValidFiles;
      var ok := EnsureBuffer(traceSize, io);
      if !ok { return None; }
      if NewTrace(n, traceSize) {
        NewFragment(io.output);
        if buffer == null { return None; }
      }
      at := Some(offset);
      offset := offset + n;
    }

    /** `coldtrace_writer_fini`: the last, partial fragment is written out too. */
    method Fini(output: Output)
      requires Valid()
      modifies this, compBuf
      ensures ValidFiles() && !initd && buffer == null
      ensures failed == old(failed || (buffer != null && !output.Stored?))
      ensures
        if old(buffer) != null && output.Stored? then
          raws == old(raws) + [old(buffer[VERSION_SIZE..offset])]
        else raws == old(raws)
      ensures old(buffer) != null ==> Left(output, true)
      ensures old(buffer) != null && damage.Torn? ==> damage.raw == old(buffer[VERSION_SIZE..offset])
      ensures old(buffer) == null ==>
        unchanged(this`files, this`before, this`first, this`written, this`raws, this`damage)
    {
      hide Disk, Damaged, IsFile, Lz4Reference.Hashes, Opened, CompressBound, FileNumber;
      if !initd { return; }
      if buffer != null { Flush(output); }
      buffer, compBuf, initd := null, null, false;
    }
  }

  lemma FileLength(data: seq<Byte>, version: seq<Byte>, raw: seq<Byte>)
    requires IsFile(data, version, raw)
    ensures |data| > HEADER_SIZE
  {
  }

  lemma NextRemainder(m: nat, max: nat)
    requires max > 0
    ensures (m % max + 1) % max == (m + 1) % max
  {
    var q, r := m / max, m % max;
    assert m == q * max + r;
    if r + 1 < max {
      SmallRemainder(r + 1, max);
      Remainder(m + 1, q, r + 1, max);
    } else {
      assert (q + 1) * max == q * max + max;
      Remainder(m + 1, q + 1, 0, max);
      Remainder(max, 1, 0, max);
    }
  }

  lemma NextFileNumber(first: nat, k: nat, max: nat)
    requires max > 0
    ensures (FileNumber(first, k, max) + 1) % max == FileNumber(first, k + 1, max)
  {
    if k > 0 { NextRemainder(first + k, max); }
  }
}
