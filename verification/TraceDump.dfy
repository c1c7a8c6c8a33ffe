/** `TraceReader` of `trace_dump.py` as an object: it decompresses fragment files and reads their
    entries one by one, updating its stack in place. */
module TraceDump {
  import opened Bytes
  import opened Entries
  import opened TraceReader
  import opened Fragment
  import opened Lz4Format
  import opened Lz4Accept
  import Lz4Decompress
  import Lz4Truncate

  const HEADER_SIZE := 12
  const MAX_RATIO := 255

  /** `_check_version`: major in byte 5, minor in byte 6, patch in byte 7. */
  predicate Supported(version: seq<Byte>)
    requires |version| == VERSION_SIZE
  {
    version[5] > 0 || version[6] >= 2
  }

  /** One version is older than another: major, minor and patch in lexicographic order. */
  ghost predicate Older(a: (nat, nat, nat), b: (nat, nat, nat))
  {
    a.0 < b.0 || (a.0 == b.0 && (a.1 < b.1 || (a.1 == b.1 && a.2 < b.2)))
  }

  /** The oldest version read is 0.2.0. */
  ghost predicate Readable(version: seq<Byte>)
  {
    |version| == 8 && !Older((version[5], version[6], version[7]), (0, 2, 0))
  }

  /** What is written as version 0.2.0 is read. */
  lemma CurrentReadable(version: seq<Byte>)
    requires |version| == VERSION_SIZE
    ensures version[5..] == [0, 2, 0] ==> Readable(version)
  {
    if version[5..] == [0, 2, 0] { assert version[5..][0] == version[5] && version[5..][1] == version[6]; }
  }

  /** A fragment file as the writer makes it: version, raw size, compressed entries. */
  ghost predicate IsFile(data: seq<Byte>, version: seq<Byte>, raw: seq<Byte>)
  {
    && |version| == VERSION_SIZE && |raw| <= MAX_INPUT_SIZE
    && |data| >= HEADER_SIZE
    && data[..VERSION_SIZE] == version && data[VERSION_SIZE..HEADER_SIZE] == Le(|raw|, 4)
    && Legal(data[HEADER_SIZE..], |raw|) && Meaning(data[HEADER_SIZE..]) == Some(raw)
  }

  /** The plausibility limit never rejects a genuine file. */
  lemma PlausibleSize(data: seq<Byte>, version: seq<Byte>, raw: seq<Byte>)
    requires IsFile(data, version, raw)
    ensures Half(data, VERSION_SIZE) == |raw| <= MAX_RATIO * |data[HEADER_SIZE..]|
  {
    WordWidths();
    FromLeInverts(|raw|, 4);
    ExpansionRatio(data[HEADER_SIZE..], 0, []);
  }

  /** A file that announces no entries: what follows its header is not looked at. */
  ghost predicate EmptyFile(data: seq<Byte>, version: seq<Byte>)
  {
    && |version| == VERSION_SIZE && |data| >= HEADER_SIZE
    && data[..VERSION_SIZE] == version && data[VERSION_SIZE..HEADER_SIZE] == Le(0, 4)
  }

  /** File `data` holds the fragment `ps`. */
  ghost predicate HoldsFragment(data: seq<Byte>, version: seq<Byte>, ps: seq<Placed>)
  {
    Chain(ps) && (IsFile(data, version, Layout(ps)) || (ps == [] && EmptyFile(data, version)))
  }

  ghost predicate FileOf(data: seq<Byte>, version: seq<Byte>, ps: seq<Placed>)
  {
    Readable(version) && HoldsFragment(data, version, ps)
  }

  /** A file cut short that should hold entries. */
  ghost predicate Cut(data: seq<Byte>, full: seq<Byte>, version: seq<Byte>, raw: seq<Byte>)
  {
    IsFile(full, version, raw) && raw != [] && |data| < |full| && data == full[..|data|]
  }

  /** No file a reader can make sense of: too short for its header, of an older version, or cut
      short. */
  ghost predicate Unreadable(data: seq<Byte>)
  {
    || |data| < HEADER_SIZE || !Readable(data[..VERSION_SIZE])
    || exists full, version, raw :: Cut(data, full, version, raw)
  }

  /** The payload of such a file does not decode to the announced size. */
  lemma CutPayload(data: seq<Byte>, full: seq<Byte>, version: seq<Byte>, raw: seq<Byte>)
    requires Cut(data, full, version, raw) && |data| >= HEADER_SIZE
    ensures Half(data, VERSION_SIZE) == |raw| > 0
    ensures
      var m := Meaning(data[HEADER_SIZE..]);
      m.Some? ==> |m.value| < |raw|
  {
    hide Meaning, Legal;
    PlausibleSize(full, version, raw);
    assert data[VERSION_SIZE..HEADER_SIZE] == full[VERSION_SIZE..HEADER_SIZE];
    var block := full[HEADER_SIZE..];
    assert data[HEADER_SIZE..] == block[..|data| - HEADER_SIZE];
    Lz4Truncate.Truncated(block, |data| - HEADER_SIZE, |raw|);
  }

  lemma EmptyFileSize(data: seq<Byte>, version: seq<Byte>)
    requires EmptyFile(data, version)
    ensures Half(data, VERSION_SIZE) == 0
  {
    WordWidths();
    FromLeInverts(0, 4);
  }

  ghost predicate FilesOf(files: seq<seq<Byte>>, version: seq<Byte>, fs: seq<seq<Placed>>)
  {
    |files| == |fs| && forall i :: 0 <= i < |fs| ==> FileOf(files[i], version, fs[i])
  }

  /** Any bytes a reader takes for a file: of a version it reads, whose payload decodes to the size the
      header announces. */
  ghost predicate Accepts(data: seq<Byte>, maxFragmentSize: nat)
  {
    && |data| >= 12 && Readable(data[..8])
    && var n, payload := Half(data, 8), data[12..];
    && n <= maxFragmentSize && n <= 255 * |payload|
    && (n == 0 || (Takes(payload, n) && Meaning(payload).Some? && |Meaning(payload).value| == n))
  }

  /** What a reader then parses. */
  ghost function Unpacked(data: seq<Byte>, maxFragmentSize: nat): seq<Byte>
    requires Accepts(data, maxFragmentSize)
  {
    data[..8] + if Half(data, 8) == 0 then [] else Meaning(data[12..]).value
  }

  /** Any file read with a stack: refused, or parsed behind its version. */
  ghost function ReadOne(data: seq<Byte>, stack: seq<U64>, maxFragmentSize: nat): Reading
  {
    if Accepts(data, maxFragmentSize) then ReadFrom(Unpacked(data, maxFragmentSize), 8, stack)
    else Reading([], stack, false)
  }

  /** The first `n` files read, each with the stack the one before it leaves, up to the first error. */
  ghost function ReadAll(files: seq<seq<Byte>>, n: nat, stack: seq<U64>, maxFragmentSize: nat): Reading
    requires n <= |files|
  {
    if n == 0 then Reading([], stack, true)
    else
      var before := ReadAll(files, n - 1, stack, maxFragmentSize);
      if !before.ok then before
      else
        var one := ReadOne(files[n - 1], before.stack, maxFragmentSize);
        Reading(before.entries + one.entries, one.stack, one.ok)
  }

  lemma {:induction false} ReadsNoFurther(files: seq<seq<Byte>>, i: nat, n: nat, stack: seq<U64>, max: nat)
    requires i <= n <= |files| && !ReadAll(files, i, stack, max).ok
    ensures ReadAll(files, n, stack, max) == ReadAll(files, i, stack, max)
  {
    hide ReadOne;
    if i < n { ReadsNoFurther(files, i, n - 1, stack, max); }
  }

  /** All that is seen of some fragments read one after the other. */
  ghost function SeenAll(fs: seq<seq<Placed>>, n: nat): seq<Decoded>
    requires n <= |fs|
  {
    if n == 0 then [] else SeenAll(fs, n - 1) + SeenFrom(fs[n - 1], 0)
  }

  // ---------------------------------------------------------------- files

  predicate Sorted(s: seq<nat>)
  {
    forall i, j :: 0 <= i < j < |s| ==> s[i] < s[j]
  }

  method Least(s: set<nat>) returns (m: nat)
    requires s != {}
    ensures m in s && forall y :: y in s ==> m <= y
  {
    m :| m in s;
    var rest := s - {m};
    while rest != {}
      invariant rest <= s && m in s && forall y :: y in s && y !in rest ==> m <= y
      decreases |rest|
    {
      var j :| j in rest;
      if j < m { m := j; }
      rest := rest - {j};
    }
  }

  /** `discover_trace_files`: all fragments of the thread, in the order of their numbers. */
  method Discover(files: map<nat, seq<Byte>>) returns (numbers: seq<nat>)
    ensures Sorted(numbers) && forall j: nat :: j in numbers <==> j in files
  {
    numbers := [];
    var rest := files.Keys;
    while rest != {}
      invariant Sorted(numbers) && rest <= files.Keys
      invariant forall j: nat :: j in numbers <==> j in files && j !in rest
      invariant forall i, j :: 0 <= i < |numbers| && j in rest ==> numbers[i] < j
      decreases |rest|
    {
      var j := Least(rest);
      numbers := numbers + [j];
      rest := rest - {j};
    }
  }

  class Reader {
    var stack: seq<U64>
    const maxFragmentSize: nat

    constructor (maxFragmentSize: nat)
      ensures stack == [] && this.maxFragmentSize == maxFragmentSize
    {
      stack := [];
      this.maxFragmentSize := maxFragmentSize;
    }

    /** `_decompress`. What it returns is what the payload means; a genuine file is rejected if and
        only if its version is older than 0.2.0 or it is larger than allowed. */
    method Decompress(data: seq<Byte>) returns (r: Option<seq<Byte>>)
      ensures r.Some? ==>
        && |data| >= HEADER_SIZE
        && |r.value| == VERSION_SIZE + Half(data, VERSION_SIZE) && r.value[..VERSION_SIZE] == data[..VERSION_SIZE]
        && (|r.value| > VERSION_SIZE ==> Meaning(data[HEADER_SIZE..]) == Some(r.value[VERSION_SIZE..]))
      ensures forall version, raw ::
        IsFile(data, version, raw) ==>
          r == if Readable(version) && |raw| <= maxFragmentSize then Some(version + raw) else None
      ensures forall version :: EmptyFile(data, version) ==> r == if Readable(version) then Some(version) else None
      ensures |data| >= VERSION_SIZE && !Readable(data[..VERSION_SIZE]) ==> r.None?
      ensures forall full, version, raw :: Cut(data, full, version, raw) ==> r.None?
      ensures r == if Accepts(data, maxFragmentSize) then Some(Unpacked(data, maxFragmentSize)) else None
    {
      hide Meaning, Legal, Half, Le, Takes;
      if |data| < VERSION_SIZE || !Supported(data[..VERSION_SIZE]) || |data| < HEADER_SIZE { return None; }
      var rawSize := Half(data, VERSION_SIZE);
      var payload := data[HEADER_SIZE..];
      forall version, raw | IsFile(data, version, raw) ensures rawSize == |raw| <= MAX_RATIO * |payload| {
        PlausibleSize(data, version, raw);
      }
      forall version | EmptyFile(data, version) ensures rawSize == 0 { EmptyFileSize(data, version); }
      forall full, version, raw | Cut(data, full, version, raw)
        ensures rawSize > 0 && (Meaning(payload).Some? ==> |Meaning(payload).value| < rawSize)
      {
        CutPayload(data, full, version, raw);
      }
      var ratio := |payload| * MAX_RATIO;
      var limit := if maxFragmentSize < ratio then maxFragmentSize else ratio;
      if rawSize > limit { return None; }
      assert data[..VERSION_SIZE] + [] == data[..VERSION_SIZE];
      if rawSize == 0 { return Some(data[..VERSION_SIZE] + []); }
      var dst := new Byte[rawSize];
      var n := Lz4Decompress.DecompressSafe(payload, dst);
      if n < 0 || n != rawSize { return None; }
      assert dst[..n] == dst[..];
      r := Some(data[..VERSION_SIZE] + dst[..]);
    }

    /** `_read_stack`. */
    method ReadFrames(buf: seq<Byte>, start: nat, popped: nat, depth: nat) returns (ok: bool)
      modifies this
      ensures ok <==> ReadStack(buf, start, old(stack), popped, depth).Some?
      ensures ok ==> Some(stack) == ReadStack(buf, start, old(stack), popped, depth)
    {
      if popped > depth || popped > |stack| { return false; }
      stack := stack[..popped];
      ghost var kept := stack;
      if start + 8 * (depth - popped) > |buf| { return false; }
      var k := 0;
      while k < depth - popped
        invariant 0 <= k <= depth - popped && start + 8 * (depth - popped) <= |buf|
        invariant stack == kept + ReadWords(buf, start, k)
      {
        stack := stack + [Word(buf, start + 8 * k)];
        k := k + 1;
      }
      ok := true;
    }

    /** `_read_entry`, and the copy of it for plain accesses. */
    method ReadFields(buf: seq<Byte>, off: nat, base: nat, pointer: nat, zero: bool) returns (p: Parsed)
      modifies this
      ensures p == ParseFields(buf, off, base, pointer, zero, old(stack))
      ensures p.Entry? ==> stack == p.stack
    {
      var end := off + 8 * FieldCount(base);
      if end + (if Stacked(base) then 8 else 0) > |buf| { return Bad; }
      var f := ReadWords(buf, off, FieldCount(base));
      if !Stacked(base) { return Entry(Named(base, pointer, zero, f, []), stack, end); }
      var popped, depth := Half(buf, end), Half(buf, end + 4);
      var ok := ReadFrames(buf, end + 8, popped, depth);
      if !ok { return Bad; }
      p := Entry(Named(base, pointer, zero, f, stack), stack, end + 8 + 8 * (depth - popped));
    }

    /** One turn of the loop of `_read_file`. */
    method ReadNext(buf: seq<Byte>, off: nat) returns (p: Parsed)
      requires off < |buf|
      modifies this
      ensures p == ParseEntry(buf, off, old(stack))
      ensures if p.Entry? then stack == p.stack else p.ZeroTail? ==> stack == old(stack)
    {
      if off + 8 > |buf| { return if AllZero(buf[off..]) then ZeroTail else Bad; }
      var typed := Word(buf, off);
      var base := Base(TypeOf(typed));
      if base >= END_TYPE { return Bad; }
      if base == FREE && LooksLikeTail(buf, off) { return ZeroTail; }
      p := ReadFields(buf, off + 8, base, PointerOf(typed), TypeOf(typed) >= ZERO_FLAG);
    }

    /** `_read_file` on a decompressed fragment. */
    method ReadFragment(buf: seq<Byte>) returns (entries: seq<Decoded>, ok: bool)
      modifies this
      ensures
        var r := ReadFrom(buf, VERSION_SIZE, old(stack));
        entries == r.entries && ok == r.ok && (ok ==> stack == r.stack)
    {
      hide ParseEntry;
      ghost var goal := ReadFrom(buf, VERSION_SIZE, stack);
      entries := [];
      var off := VERSION_SIZE;
      while off < |buf|
        invariant
          var rest := ReadFrom(buf, off, stack);
          goal == Reading(entries + rest.entries, rest.stack, rest.ok)
        decreases |buf| - off
      {
        var p := ReadNext(buf, off);
        if p.Bad? { return entries, false; }
        if p.ZeroTail? { return entries, true; }
        ghost var rest := ReadFrom(buf, p.next, stack);
        var seen := Observed(p.entry, stack);
        assert entries + ([seen] + rest.entries) == entries + [seen] + rest.entries;
        entries := entries + [seen];
        off := p.next;
      }
      ok := true;
    }

    /** `_read_file`: whatever the reader held before, a genuine file reads without error to
        what it holds. */
    method ReadFile(data: seq<Byte>) returns (entries: seq<Decoded>, ok: bool)
      modifies this
      ensures forall version, ps :: FileOf(data, version, ps) && MAX_INPUT_SIZE <= maxFragmentSize ==>
        ok && entries == SeenFrom(ps, 0)
      ensures Unreadable(data) ==> !ok
      ensures
        var r := ReadOne(data, old(stack), maxFragmentSize);
        entries == r.entries && ok == r.ok && (ok ==> stack == r.stack)
    {
      hide Layout, LinkedAt, AllPlaced, IsFile, ReadFrom, SeenFrom, Half, Meaning, Cut, EmptyFile, Accepts, Unpacked;
      var buf := Decompress(data);
      ghost var st := stack;
      forall version, ps | FileOf(data, version, ps) && MAX_INPUT_SIZE <= maxFragmentSize
        ensures buf == Some(version + Layout(ps))
        ensures var r := ReadFrom(version + Layout(ps), VERSION_SIZE, st); r.ok && r.entries == SeenFrom(ps, 0)
      {
        FileBytes(data, version, ps);
        FragmentReads(version, ps, st);
      }
      if buf.None? { return [], false; }
      entries, ok := ReadFragment(buf.value);
    }

    /** `entries`: the files of a thread one after the other, in any order. */
    method ReadEntries(files: seq<seq<Byte>>) returns (entries: seq<Decoded>, ok: bool)
      modifies this
      ensures forall version, fs :: FilesOf(files, version, fs) && MAX_INPUT_SIZE <= maxFragmentSize ==>
        ok && entries == SeenAll(fs, |fs|)
      ensures forall i :: 0 <= i < |files| && Unreadable(files[i]) ==> !ok
      ensures
        var r := ReadAll(files, |files|, old(stack), maxFragmentSize);
        entries == r.entries && ok == r.ok && (ok ==> stack == r.stack)
    {
      hide FileOf, SeenFrom, Unreadable, ReadOne;
      ghost var st := stack;
      entries := [];
      var i := 0;
      while i < |files|
        invariant 0 <= i <= |files|
        invariant forall version, fs :: FilesOf(files, version, fs) && MAX_INPUT_SIZE <= maxFragmentSize ==>
          entries == SeenAll(fs, i)
        invariant forall k :: 0 <= k < i ==> !Unreadable(files[k])
        invariant ReadAll(files, i, st, maxFragmentSize) == Reading(entries, stack, true)
      {
        var more, good := ReadFile(files[i]);
        forall version, fs | FilesOf(files, version, fs) && MAX_INPUT_SIZE <= maxFragmentSize
          ensures good && more == SeenFrom(fs[i], 0)
        {
          assert FileOf(files[i], version, fs[i]);
        }
        entries := entries + more;
        if !good {
          ReadsNoFurther(files, i + 1, |files|, st, maxFragmentSize);
          return entries, false;
        }
        i := i + 1;
      }
      ok := true;
    }
  }

  lemma FileBytes(data: seq<Byte>, version: seq<Byte>, ps: seq<Placed>)
    requires FileOf(data, version, ps)
    ensures |version| == VERSION_SIZE
    ensures
      || (IsFile(data, version, Layout(ps)) && |Layout(ps)| <= MAX_INPUT_SIZE)
      || (EmptyFile(data, version) && version + Layout(ps) == version)
  {
  }
}
