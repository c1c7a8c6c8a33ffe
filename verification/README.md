# Coldtrace, verified

Coldtrace records what the threads of a program do (memory accesses, atomics, locks, thread
creation) into one log per thread. An event becomes an entry: a header, some fields and, for
most accesses, the call stack, of which only the frames that changed are written. Entries fill
a buffer; a full buffer is compressed with LZ4 and written as a numbered fragment file, in a
ring. A reader turns the files back into entries and stacks. Events of different threads are
ordered by indices from one shared counter.

This project models that chain and proves that nothing is lost or invented on the way:

- **The LZ4 block codec.** `MatchCopy`, `Lz4Copy`: overlapping copies. `Lz4Format`: what a block
  means, which blocks are legal (the parsing restrictions of the LZ4 Block Format), and the
  byte-by-byte decoder. `Lz4Reference`: the block the compressor makes of a source, as a function.
  `Lz4Compress`: the compressor, as imperative code over its hash table and output buffer, with an
  arbitrary hash. `Lz4Decompress`: the unsafe decoder, and the safe decoder
  with its fast loop, shortcut and wild copies; `Lz4Accept`: exactly which blocks that one accepts.
  `Lz4RoundTrip`: they fit together. `Lz4Truncate`: a block cut short never passes for the whole.
- **Writing and reading traces.** `Entries`, `Fragment`: the byte layout, and what makes a
  sequence of delta-encoded stacks readable. `Writer`, `Thread`: the C objects that write.
  `TraceReader`, `TraceDump`: the Python reader. `Runs`: what a run should log, and into which
  fragments. `RoundTrip`: whole runs, from calls and events through compression and files back to
  entries. `PageWalk`: the C parser of entries.
- **The order of atomics.** `AtomicIndex`: a transition system of any number of threads, 128 locked
  areas and the shared counter. `AtomicReplay`: replaying the log in index order gives every read
  what it saw. `AtomicLog`: what is logged, told from the steps of a run.
- **Synchronisation objects.** `SyncObjects`: locks, semaphores and thread lives, with the index
  taken where the subscribers take it relative to the real call.
- **The trace checker.** `TraceChecker`: the greedy matcher of the repository's tests. `GreedyMatch`:
  which traces it accepts.

`dafny verify dfyconfig.toml` checks everything.

## Reading the model

- C buffers are arrays, C and Python objects are classes, and the ghost fields `flushed`,
  `current` and `log` of a thread, or `written` and `raws` of a writer, record what has happened.
- Files are a map from fragment number to bytes. The version header, the file maximum and the hash
  functions are parameters. So are the configured trace size, which may differ from one append to the
  next but not during one, and the outcomes of mmap, malloc, realloc, open, write and unlink. A write
  that fails leaves any number of bytes, but not all, in the file.
- A thread is initialised once, before its first append.
- An entry together with its whole stack must fit an empty fragment (8 + fixed size + 8 per frame).
  The C code does not check this again after rolling over; the model asks it of the caller.
- `Meaning` is what the block format says, leniently; `Legal` adds the parsing restrictions. The
  safe decoder is proved sound on all inputs and complete on legal ones.
- The LZ4 module of the Python reader is taken to be the safe decoder.
- Every atomic access lies inside one 64-byte line, as `get_area` needs, and the bytes it touches are
  written only by traced atomics. A lock is atomic, and the subscribers before and after an event
  bracket the real operation. The counter is an atomic fetch-and-increment.
- Programs use their locks correctly: non-recursive mutexes, released by their owner. `pthread_create`
  and `pthread_join` succeed; a failing one would be logged all the same.

Six things the code does differently from what one would expect:

- A free of a null pointer with index 0, caller 0 and an empty stack looks like the zero-filled tail
  of a fragment to the reader, which stops there. A dump shows the whole log if and only if there is
  no such record (`RoundTrip.SeenAllIsLog`, `RoundTrip.TraceAndDump`; `RoundTrip.ZeroFreeDump` is the
  shortest run).
- Two outcomes of writing out a fragment leave a file that no reader can read, and then dumping the
  directory fails. The file of the first fragment is created empty: if it cannot be opened again when
  that fragment is written out, it stays empty. And the result of `unlink` is ignored: if a write fails
  and the file cannot be removed, a truncated file stays. It can still be read only if it was to hold no
  entries and its header is whole. The dump fails if and only if the last attempt to write out a
  fragment ended in one of the two (`RoundTrip.TraceAndDump`); `RoundTrip.FailingDump` gives runs of one
  event for both.
- Into an empty output the safe decoder accepts only the block of one zero byte, although the format
  lets the low half of that byte be anything (`Lz4Decompress.DecompressSafe`,
  `Lz4RoundTrip.DecodeEmpty`).
- The safe decoder accepts blocks that break the format's rule that the last five bytes are literals: its
  shortcut does not look (`Lz4RoundTrip.AcceptLate`). `Lz4Accept.Takes` says exactly what it accepts.
- The checker enforces `atleast` only if `atmost` is 0 or not smaller; otherwise it asks for `atmost`
  entries (`TraceChecker.CountsEnforced`).
- The checker is greedy, so it may refuse a trace that splits into the blocks expected: an optional item
  takes the entries a required one needs (`GreedyMatch.Greed`). It accepts every trace that has a split
  in which no entry fits an item passed over for it (`GreedyMatch.CheckTrace`).

## Model

| member | source | states |
|---|---|---|
| `MatchCopy.CopiedByte` | deps/lz4/lz4.c:1951-1956 | In an expanded match every byte equals the byte `offset` before it, also where the match overlaps itself |
| `MatchCopy.PeriodicByte` | deps/lz4/lz4.c:466-476 | An expanded match repeats with every multiple of its offset, as far back as the match source |
| `MatchCopy.BlockCopy` | deps/lz4/lz4.c:466-476 | Copying a block from a distance that is a good multiple of the offset gives the bytes the byte-by-byte copy gives |
| `MatchCopy.CopiedIsMatch` | deps/lz4/lz4.c:1951-1956 | The byte-wise description of a partly copied match holds exactly of the recursive expansion |
| `Lz4Copy.TableDistances` | deps/lz4/lz4.c:475-476 | The two start-up tables turn every offset below 8 (offset 0 included) into source distances that are at least 4 and then 8 and multiples of the offset |
| `Lz4Copy.FirstEight` | deps/lz4/lz4.c:500-515 | The table-driven start-up writes the first eight bytes of the match for every offset, and leaves a source at a good distance of at least 8 |
| `Lz4Copy.WildCopy8` | deps/lz4/lz4.c:466-473 | 8-byte block copies from a good distance expand the match exactly up to its end, whatever is written behind it; at most 7 bytes behind |
| `Lz4Copy.WildCopy32` | deps/lz4/lz4.c:522-530 | 32-byte block copies at offsets of 16 or more expand the match exactly up to its end |
| `Lz4Copy.CopyPattern` | deps/lz4/lz4.c:542-571 | Offsets 1, 2 and 4: repeating an 8-byte pattern expands the match exactly |
| `Lz4Copy.CopyUsingOffset` | deps/lz4/lz4.c:535-572 | For every offset the overlapping copy with up to 12 bytes of overshoot expands the match exactly |
| `Lz4Format.LegalIffSimple` | deps/lz4/lz4.c:1870-1967 | The byte-by-byte decoder accepts and consumes a whole block if and only if the block obeys the format and its parsing restrictions, and then its output is the block's meaning |
| `Lz4Format.ExpansionRatio` | scripts/trace_dump.py:202-216 | Whatever a block of c bytes means has at most 255 c bytes |
| `Lz4Format.ReadLengthAt` | deps/lz4/lz4.c:1979-2015 | Reading a length inverts writing it, wherever the bytes stand: nibble, run of 255s, remainder |
| `Lz4Format.LegalTail` | deps/lz4/lz4.c:246-250 | A legal block that still owes the last literals has a token and those literals left, so reading ahead stays inside the input |
| `Lz4Compress.Count` | deps/lz4/lz4.c:681-704 | The count is the length of the longest common run before the limit: all bytes agree, and the next one differs or is the limit |
| `Lz4Compress.CompareWord` | deps/lz4/lz4.c:580-704 | One word comparison finds the first differing byte |
| `Lz4Compress.WriteLong` | deps/lz4/lz4.c:1124-1131 | The run of 255s and the remainder of a literal length |
| `Lz4Compress.WriteMatchLong` | deps/lz4/lz4.c:1214-1226 | The 4-bytes-at-a-time writer leaves the same bytes as the plain run of 255s and the remainder, and stays inside the output |
| `Lz4Compress.FindMatch` | deps/lz4/lz4.c:1020-1103 | Whatever the hash, the loop over forward positions computes the search of the reference compressor, table included: positions one further apart after every 64, the first that has the same four bytes as, and lies at most 65535 behind, the position its cell holds; nothing if the search gets within eleven bytes of the end first |
| `Lz4Compress.TestNext` | deps/lz4/lz4.c:1236-1298 | Two positions enter the table, and the next one is returned exactly if it matches at what its cell held in between |
| `Lz4Compress.CatchUp` | deps/lz4/lz4.c:1105-1110 | Going backwards keeps the two runs equal and ends where the reference compressor says: at the anchor, at the start of the source or where the bytes differ |
| `Lz4Compress.EmitLiterals` | deps/lz4/lz4.c:1112-1135 | Token and literals as the format writes them, although the copy overshoots; every store is inside the bound |
| `Lz4Compress.EmitMatchLength` | deps/lz4/lz4.c:1214-1227 | The match length goes into the low half of the token and the bytes behind the offset |
| `Lz4Compress.MatchExpands` | deps/lz4/lz4.c:1139-1164 | Two equal runs, even overlapping ones, make a match that expands to the second |
| `Lz4Compress.EncodesSequence` | deps/lz4/lz4.c:1139-1231 | Appending a sequence with a legal offset to a prefix that decodes to `done` gives a prefix that decodes to `done` and the expanded sequence, for every continuation |
| `Lz4Compress.EncodesLast` | deps/lz4/lz4.c:1303-1329 | Appending the last literals completes a legal block with the meaning of everything encoded |
| `Lz4Compress.MatchRoom` | deps/lz4/lz4.c:1214-1226 | The stores of a match stay inside the compression bound and the output stays below source + source / 255 |
| `Lz4Compress.NextMatch` | deps/lz4/lz4.c:1139-1234 | One pass through `_next_match` appends one sequence, whose match goes on until the bytes differ or five are left; the output now decodes to the source up to the new anchor |
| `Lz4Compress.FirstSequence` | deps/lz4/lz4.c:1105-1234 | Catch-up, literals and match of a found candidate: exactly that sequence is appended, and the output decodes to the source up to the new anchor |
| `Lz4Compress.MatchChain` | deps/lz4/lz4.c:1139-1298 | Immediate matches one after the other append exactly the links of the reference compressor, leave its table, and keep that invariant |
| `Lz4Compress.LastLiterals` | deps/lz4/lz4.c:1303-1341 | The last literals and nothing else are appended; the finished block is legal, means the source and is at most source + source / 255 + 2 bytes |
| `Lz4Compress.MainTurn` | deps/lz4/lz4.c:1017-1298 | One turn of the main loop keeps that invariant and makes progress; what is written and the rest of the reference block make up the reference block |
| `Lz4Compress.CompressValidated` | deps/lz4/lz4.c:931-1342 | For every source, hash and either table type: success unless the output is limited, and then a legal block whose meaning is the source, byte for byte the block of the reference compressor |
| `Lz4Compress.CompressFast` | deps/lz4/lz4.c:1383-1406 | Fails for more than 0x7E000000 bytes, never for fewer with room for n + n / 255 + 16; otherwise a legal block whose meaning is the source, inputs of any length included, and byte for byte the block of the reference compressor: with the 16-bit table for less than 65547 bytes, else with the 32-bit table |
| `Lz4Compress.Sequences` | deps/lz4/lz4.c:1105-1298 | A found match appends the sequence it leads to and the links behind it, as the reference compressor does, and the output decodes to the source up to the new anchor |
| `Lz4Reference.EndUnique` | deps/lz4/lz4.c:681-704 | There is only one place where a match can end: all bytes before it agree, and the next one differs or five are left |
| `Lz4Reference.EndsBehind` | deps/lz4/lz4.c:1105-1164 | A match that was extended backwards still reaches behind the four bytes it was found by |
| `Lz4Reference.RunReference` | deps/lz4/lz4.c:931-1342 | Whatever the hash and the table type, thirteen or more equal bytes become one literal, one match at offset 1 and five literals |
| `Lz4Decompress.ReadVariableLength` | deps/lz4/lz4.c:1979-2015 | The guarded reader returns what the unguarded one returns, and fails only where that one would pass the limit |
| `Lz4Decompress.SafeMatchCopy` | deps/lz4/lz4.c:2354-2435 | Succeeds if and only if the offset lies in the output and the match leaves the last literals; then the output is the expanded match |
| `Lz4Decompress.SafeLiteralCopy` | deps/lz4/lz4.c:2273-2330 | From the label on: the literals are copied, the block ends, or an error is returned, exactly as the acceptance conditions say |
| `Lz4Decompress.MatchLength` | deps/lz4/lz4.c:2331-2352 | The match length read is the one the format defines, or an error is returned because it is not read in time |
| `Lz4Decompress.ShortMatch` | deps/lz4/lz4.c:2240-2262 | The second stage of the shortcut copies the match of a short sequence exactly |
| `Lz4Decompress.SafeTurn` | deps/lz4/lz4.c:2216-2436 | One turn of the safe loop, shortcut included, keeps: from here decoding still leads to the block's meaning, and the block is accepted if and only if the rest is |
| `Lz4Decompress.FastTurn` | deps/lz4/lz4.c:2085-2209 | One turn of the fast loop keeps the same and the room for its overshoots; it leaves for the right label |
| `Lz4Decompress.FastLoop` | deps/lz4/lz4.c:2076-2212 | The whole fast loop and the jump out of it keep the same, and end |
| `Lz4Accept.LegalTakes` | deps/lz4/lz4.c:2216-2436 | A legal block meets the acceptance conditions of the safe decoder, whichever loop or shortcut reads each sequence |
| `Lz4Decompress.DecompressSafe` | deps/lz4/lz4.c:2023-2448 | On every input: both buffers are respected, the input is accepted if and only if it meets the acceptance conditions, and then it is decoded to its meaning. A legal block of exactly the output's size is always accepted, except into an empty output, where only the block of one zero byte is |
| `Lz4Decompress.DecompressUnsafe` | deps/lz4/lz4.c:1870-1967 | The imperative byte-by-byte decoder computes its functional description: output, bytes consumed, or rejection |
| `Lz4RoundTrip.SimpleDecodesLegal` | deps/lz4/lz4.c:1870-1967 | A block is legal if and only if the byte-by-byte decoder consumes all of it, and the output is then its meaning |
| `Lz4RoundTrip.EmptyOutput` | deps/lz4/lz4.c:2063-2069 | The legal blocks for an empty output are exactly the single bytes below 16 |
| `Lz4RoundTrip.DecodeEmpty` | deps/lz4/lz4.c:2063-2069 | Of those sixteen blocks the byte-by-byte decoder accepts each, and the safe decoder only zero |
| `Lz4RoundTrip.ShortBlock` | deps/lz4/lz4.c:1003-1003 | A legal block that decodes to at most twelve bytes, hence every block made from such an input, is one run of literals |
| `Lz4RoundTrip.DecodeBoth` | deps/lz4/lz4.c:2023-2448 | The optimised decoder refines the byte-by-byte one: on every block that one decodes, same length and same bytes |
| `Lz4RoundTrip.CompressAndDecode` | src/writer.c:145-147 | Every source up to the input limit, compressed with any hash functions, stays within the bound and decodes byte for byte to itself with either decoder |
| `Lz4RoundTrip.CompressRun` | deps/lz4/lz4.c:931-1342 | For every n and byte b, n copies of b are compressed to one exact block, given in numbers, by any hash functions, and both decoders give n copies of b back |
| `Lz4RoundTrip.RefuseLate` | deps/lz4/lz4.c:2410-2413 | A block of one literal, a match at offset 1 that ends fewer than five bytes before the end of the output, and literals is refused by both decoders |
| `Lz4RoundTrip.AcceptLate` | deps/lz4/lz4.c:2240-2262 | Fourteen literals and a match of eighteen that fills the output of 32 bytes: refused byte by byte, accepted by the shortcut of the safe decoder |
| `Lz4Truncate.Truncated` | src/writer.c:165-170 | Cut anywhere, a legal block means nothing or fewer bytes than before, so a reader that knows the size notices |
| `Entries.HeaderParts` | include/coldtrace/entries.h:62-71 | Type and the low 48 bits of the pointer come back out of a header word |
| `Entries.EncodedSize` | src/entries.c:126-229 | The bytes of an entry are its fixed size and 8 per frame its diff does not keep |
| `PageWalk.EntryWalks` | src/entries.c:57-190 | Parsing an entry where it stands gives its type, pointer, size, allocation and atomic index, and a size equal to the bytes written for it, for every type |
| `Fragment.DiffReads` | scripts/trace_dump.py:486-532 | A stack diff rebuilds the whole stack on top of any stack that agrees in the frames it keeps |
| `Fragment.EntryLayout` | include/coldtrace/entries.h:62-71 | Every entry byte by byte: type, a zero, 48 bits of pointer, its fields in order and, for a memory access, frames kept, depth and the other frames, all little-endian |
| `Fragment.ZeroFreeBytes` | scripts/trace_dump.py:359-485 | The reader takes an entry for the zero-filled tail if and only if it is a free of null with index 0, caller 0 and an empty stack |
| `Fragment.EntryReads` | scripts/trace_dump.py:238-532 | Reading one encoded entry back gives exactly the record, its stack and the place behind it, unless it is such a free |
| `Fragment.FragmentReads` | scripts/trace_dump.py:105-127 | Every fragment stands alone: from any reader state it reads without error to the same entries, each with its whole stack, up to an all-zero free |
| `TraceDump.PlausibleSize` | scripts/trace_dump.py:202-216 | The plausibility limit on the uncompressed size never rejects a file the writer made, empty ones included |
| `TraceDump.Discover` | scripts/trace_dump.py:105-139 | All files of the thread, each once, in the order of their numbers |
| `TraceDump.Reader.Decompress` | scripts/trace_dump.py:172-236 | Accepted if and only if the header is whole, the version is at least 0.2.0, the size announced is at most the limit and 255 times the payload, and the payload decodes to that many bytes; what is returned is the version and what the payload means. A genuine file is accepted exactly if its version is not older and it is not too large; one cut short when it should hold entries never is |
| `TraceDump.Reader.ReadFrames` | scripts/trace_dump.py:486-532 | The in-place stack ends as the kept frames and the frames read, or an error exactly in the cases the reader checks |
| `TraceDump.Reader.ReadFragment` | scripts/trace_dump.py:256-357 | The loop over a fragment yields exactly what reading recursively yields: entries, errors, remaining stack |
| `TraceDump.Reader.ReadFile` | scripts/trace_dump.py:238-357 | Any bytes: refused without entries unless Decompress accepts them, else parsed behind the version with the stack left from before, and the stack afterwards is the one that parsing leaves. A genuine file of version 0.2.0 or newer reads without error to the entries of its fragment, whatever the stack held before; one without a whole header, of an older version, or cut short when it should hold entries, is an error |
| `TraceDump.Reader.ReadEntries` | scripts/trace_dump.py:155-157 | Any files are read one after the other, each with the stack the one before it left, up to the first error. Genuine files, in any order, give the entries of their fragments without error; one that cannot be read, anywhere among them, is an error |
| `Writer.RingKeepsNewest` | src/writer.c:270-270 | From a fresh directory with m files allowed, after K flushes exactly the files below min(K, m) exist and each of the last m fragments is in its file |
| `Writer.Writer.constructor` | src/writer.c:320-341 | A new writer holds no buffer and has written nothing |
| `Writer.Writer.FirstFragment` | src/writer.c:84-103 | The first fragment gets the first number not taken, as an empty file, if and only if creating a file does not fail on the way there |
| `Writer.Writer.EnsureBuffer` | src/writer.c:186-248 | Succeeds if and only if the writer works and has a buffer, or the configured size is valid and mapping, allocation and the first file succeed; any other outcome puts an initialised writer in its failed state |
| `Writer.Writer.Allocate` | src/writer.c:221-247 | A new buffer holds the version, and its compression buffer holds any fragment; on failure nothing is left behind |
| `Writer.Writer.Compressed` | src/writer.c:135-152 | Compression never fails: the result is version, raw size and a legal block meaning the entries |
| `Writer.Writer.Flush` | src/writer.c:126-174 | Stored: the file of the current number, and no other, becomes the compressed fragment. Not opened: no file changes. Not written: that file is gone or, if it cannot be removed, holds the beginning of the compressed fragment. In the last two the writer has failed and holds no buffer |
| `Writer.Writer.NewFragment` | src/writer.c:251-284 | If the fragment is stored it is appended to those written, the next number is taken in the ring and the buffer starts over; if not, the writer has failed and its files are as the outcome says |
| `Writer.Writer.Reserve` | src/writer.c:286-318 | With a buffer, space is reserved behind the entries so far if and only if it fits there, both in the configured and in the allocated size; otherwise at the start of a new fragment. Offset and size stay in bounds; refused exactly when no buffer can be had or the full fragment cannot be stored, and then files and fragments are as that outcome says; a failed writer does not change |
| `Writer.Writer.Fini` | src/writer.c:343-358 | The last, partial fragment is written too if storing it succeeds, and the writer is closed; the outcome says what is left of its file, and without a buffer no file changes |
| `Writer.NextFileNumber` | src/writer.c:270-270 | Advancing the number in the ring gives the number of the next fragment |
| `Thread.ChainExtends` | src/thread.c:127-142 | An entry whose kept frames the reader has may be appended: the fragment stays readable and grows by its bytes |
| `Thread.LinkedPop` | src/thread.c:193-205 | Popping a frame leaves the kept frames known to the reader |
| `Thread.Thread.constructor` | src/thread.c:146-152 | A new thread has an empty stack and an empty log |
| `Thread.Thread.Push` | src/thread.c:62-87 | The frame is on top of the stack and what a reader knows stays right; a full stack grows to 16 frames, then doubles; if it cannot grow, the thread has failed and keeps its stack |
| `Thread.Thread.Pop` | src/thread.c:193-205 | The top frame is gone, an empty stack stays empty; of the frames a reader knows only those above the new depth are forgotten |
| `Thread.Thread.ReserveEntry` | src/thread.c:103-129 | If the entry does not fit, the fragment so far is complete and the new one starts with nothing kept; otherwise no fragment is closed |
| `Thread.Thread.AppendPlain` | src/thread.c:103-115 | An entry without a stack: header in place, and the bottom of the stack forgotten when the writer rolls over |
| `Thread.Thread.AppendStack` | src/thread.c:117-143 | An entry with a stack: predicting the rollover before reserving agrees with what reserving then does, so the diff written links to what the reader has |
| `Thread.Thread.Append` | src/thread.c:88-144 | Refused exactly if the thread or the writer has failed, the type is unknown, or a system call it needs fails; otherwise header and stack diff are in place and linked. The diff keeps all frames the reader of the fragment has, and the fragment is closed only if the entry does not fit |
| `Thread.Thread.Log` | src/subs_tsan.c:30-48 | One event: the log and the current fragment, or a new one if it does not fit, grow by exactly this record, with the whole stack, if and only if the entry was not refused |
| `Thread.Thread.Fini` | src/thread.c:153-163 | After the end the stack is empty and every record logged is in exactly one written fragment, in order, or in the one fragment lost to a failure; none is lost if the last is stored and none failed before |
| `Runs.ClosedFull` | src/writer.c:286-297 | In every run each closed fragment was closed at an event whose entry, with the frames its reader did not have, did not fit behind those in it |
| `Runs.OneFragment` | src/writer.c:286-297 | Everything a run logs goes into one fragment if and only if every entry fits behind all before it, each stack without the frames not popped since the one before |
| `RoundTrip.EventRolls` | src/thread.c:103-129 | The writer closes the fragment at an event exactly if the entry does not fit behind the others, in bytes |
| `RoundTrip.SeenAllIsLog` | scripts/trace_dump.py:105-157 | Reading fragments in order shows all their records if and only if none is an all-zero free |
| `RoundTrip.ZeroFreeHides` | scripts/trace_dump.py:359-485 | An all-zero free at any place of a fragment hides itself and all that follows: no more is seen than stands before it |
| `RoundTrip.ZeroFreeRun` | scripts/trace_dump.py:359-485 | The one-event run of such a free fits every trace size from 40 on, and its log is not free of them |
| `RoundTrip.ZeroFreeDump` | scripts/trace_dump.py:359-485 | Traced and dumped with nothing going wrong, that run shows no entry |
| `RoundTrip.FirstStackWhole` | src/thread.c:117-143 | In every fragment the first entry with a stack has popped 0 and writes the whole stack |
| `RoundTrip.Newest` | src/writer.c:270-270 | Which fragment a file holds: the newest that went to it, among the last m |
| `RoundTrip.Numbers` | scripts/trace_dump.py:137-139 | The file numbers a reader takes, in order, without the file lost to a failure |
| `RoundTrip.RingInOrder` | src/writer.c:270-270 | While no file has been overwritten or removed, the files are in the order they were written in |
| `RoundTrip.TornFile` | src/writer.c:165-170 | The beginning of a fragment file is a file of no entries, if it was one and its header is whole; otherwise no reader can read it |
| `RoundTrip.Trace` | src/thread.c:88-205 | For every run of enters, leaves and events that fit, with any trace size configured at each event and any memory or system call failing: the fragments written are exactly those the entries fill one after the other, each stack keeping the frames not popped since the one before in its fragment, and with the one lost they are the log up to the step at which tracing stopped; it stops only where something went wrong; the newest fragments are on disk, one file missing if and only if the last outcome says it was removed; or a file cannot be read, if and only if something was logged and the last outcome was to leave the first file empty or one cut short |
| `RoundTrip.TraceAndDump` | scripts/trace_dump.py:105-157 | Dumping after any such run fails if and only if something was logged and the last attempt to write out a fragment left the first file empty or a file cut short that cannot be read, or there are files of a version older than 0.2.0. Otherwise it shows the fragments left in file order; while none was overwritten or removed, exactly the log they hold, each event with its whole stack, if and only if none is an all-zero free; and the whole log if nothing went wrong and there are no more events than files, or all entries fit in one fragment, which is exactly when there is but one |
| `RoundTrip.FailingDump` | src/writer.c:153-170 | Every run of one event that fits, whose fragment cannot be opened at the end, or is written in part and not removed, ends in a directory whose dump fails |
| `AtomicIndex.OwnThread` | src/subs_tsan.c:62-116 | A step that takes an index appends it to the indices of its thread, no other step changes them |
| `AtomicIndex.AccountedStep` | src/counters.c:25-29 | Every step keeps: each index below the counter belongs to exactly one thread, and each thread's are increasing |
| `AtomicIndex.LocksStep` | src/subs_tsan.c:60-98 | Every step keeps: an area is locked exactly by the thread inside it, and the first index read back is the one fetched |
| `AtomicIndex.SlotStays` | src/subs_tsan.c:62-76 | No step of any thread changes the slot of an area while a thread is between fetching and releasing |
| `AtomicReplay.RecordedBehind` | src/subs_tsan.c:62-98 | Operations of one area take effect in index order: each new index is behind all of its area |
| `AtomicReplay.PerformFaithful` | src/subs_tsan.c:126-175 | What a read sees when it is performed is what replaying the smaller indices gives |
| `AtomicReplay.TakeFaithful` | src/subs_tsan.c:87-116 | The second index of an update is adjacent to its first in the area |
| `AtomicReplay.MemoryStep` | src/subs_tsan.c:126-175 | Every step keeps: memory is what the replay gives, but for a write still waiting for its index |
| `AtomicReplay.InvStep` | src/subs_tsan.c:60-185 | Every step of every thread keeps the whole invariant |
| `AtomicReplay.RunInv` | src/subs_tsan.c:60-185 | The invariant holds in every state of every interleaving of any number of threads |
| `AtomicReplay.ReadsReplay` | src/subs_tsan.c:69-116 | In every state of every run each logged atomic read saw, byte for byte, what replaying the atomic writes in index order gives at its index |
| `AtomicReplay.UpdatesAtomic` | src/subs_tsan.c:87-116 | In every run no index of the same area, fences included, falls between the read and the write index of an update, exchange or successful compare-exchange |
| `AtomicReplay.FinalMemory` | src/subs_tsan.c:60-185 | When all threads are idle, memory is the replay of everything |
| `AtomicReplay.LogsIncrease` | src/subs_tsan.c:69-124 | The indices in each thread's log strictly increase |
| `AtomicReplay.IndicesUnique` | src/counters.c:25-29 | No index is logged twice |
| `AtomicReplay.IndicesComplete` | src/counters.c:25-29 | When all threads are idle, the logged indices are exactly those below the counter |
| `AtomicReplay.NoDeadlock` | src/subs_tsan.c:62-124 | In every reachable state a thread that has begun something can go on or waits for an area whose holder can |
| `AtomicReplay.OneLock` | src/subs_tsan.c:62-124 | A thread never holds two areas |
| `AtomicReplay.FinishesSoon` | src/subs_tsan.c:62-124 | In every run a thread that begins nothing new takes at most nine steps: what it has begun it finishes |
| `AtomicLog.LogsProjected` | src/subs_tsan.c:62-124 | In every run the log of every thread is, in order, the entries of its operations and synchronisation calls, with their addresses, sizes and objects: a read for a load or failed compare-exchange, a write for a store, both for an update, exchange or successful compare-exchange; each index is the number of indices taken before it |
| `AtomicLog.WaitsForArea` | src/subs_tsan.c:60-67 | In every run a thread waits exactly for a thread inside an operation in the same of 128 areas of 64-byte lines |
| `AtomicLog.WholeOperation` | src/subs_tsan.c:126-185 | Every outcome an operation may have is possible: an idle thread whose area is free can run it to its end, memory changes as it says and its entries have the next indices |
| `SyncObjects.LockStep` | src/subs_pthread.c:94-286 | Every real call and every logging step keeps: the logged holds are the real holds between the logging of acquire and release |
| `SyncObjects.LockSerialises` | src/subs_pthread.c:94-286 | In index order every trace of a lock, in every run, is acquired when free, shared only with sharers and released by a holder |
| `SyncObjects.ExclusiveHold` | src/subs_pthread.c:191-257 | In every run no acquisition, shared or exclusive, falls into an exclusive hold: the next event is the release by its holder |
| `SyncObjects.MutexAlternates` | src/subs_pthread.c:94-286 | In every run the events of a mutex or spin lock strictly alternate, beginning with an acquisition: acquisition, release by the same thread, acquisition; condition waits included |
| `SyncObjects.LockProjected` | src/subs_pthread.c:94-286 | In every run the trace of a lock is, in order, one event for each acquisition and release logged, by its thread, and the lock is held by exactly those who took it and have not dropped it |
| `SyncObjects.LockCycle` | src/subs_pthread.c:94-286 | A free lock can be taken, logged, released and dropped by any thread, and is free again; after a condition wait that kept it, it is logged again |
| `SyncObjects.ShareCycle` | src/subs_pthread.c:191-257 | A share of a lock not held exclusively can be taken, logged, released and dropped beside any others |
| `SyncObjects.SemaphorePrefix` | src/subs_sem.c:18-50 | In every prefix of every run's trace, waits never exceed the initial count and the posts so far |
| `SyncObjects.SemProjected` | src/subs_sem.c:18-50 | In every run the trace of a semaphore is, in order, one event for each post and wait logged; its value is the initial count, the posts done less the waits done; posts are logged before, waits after they are done |
| `SyncObjects.PostThenWait` | src/subs_sem.c:18-50 | In every state a post can be logged and done, then waited for and the wait logged |
| `SyncObjects.LifeOrdered` | src/subs_pthread.c:33-92 | For every joined thread the indices are in the order create, start, exit, join |
| `SyncObjects.LifeProjected` | src/subs_pthread.c:33-92 | In every run creation, start, exit and join have the index that was next when they were taken |
| `SyncObjects.WholeLife` | src/subs_pthread.c:33-92 | A thread can be created, run, end and be joined, with consecutive indices |
| `TraceChecker.CountsEnforced` | test/checkers/trace_checker.c:356-368 | Entries that fit one item are accepted by the checker if and only if there are at least `atleast` of them, when `atmost` is 0 or not below `atleast`; otherwise if and only if there are at least `atmost` |
| `TraceChecker.Checker.constructor` | test/checkers/trace_checker.c:185-193 | Nothing seen, no variable bound, the first item expected with its counts |
| `TraceChecker.Checker.Next` | test/checkers/trace_checker.c:195-205 | Leaving an item whose block is complete ends the block there and starts the next with its own counts |
| `TraceChecker.Checker.CheckPtr` | test/checkers/trace_checker.c:237-256 | A mismatch if and only if the variable is bound to another pointer, and then nothing changes; otherwise the bindings are those before and this one, if there is a variable |
| `TraceChecker.Checker.CheckNonWildcard` | test/checkers/trace_checker.c:282-369 | Accepted if and only if this item, or a later one behind optional items only, takes the entry; then the split so far is extended by it. This item takes it exactly if type, size if one is expected, and pointer unless its variable is free agree; one still required refuses any other |
| `TraceChecker.Checker.CheckWildcard` | test/checkers/trace_checker.c:371-407 | Entries of other types are skipped; one of the type ends the block if its pointer fits, else the check fails |
| `TraceChecker.Checker.CheckEntry` | test/checkers/trace_checker.c:409-420 | The same for either kind of item: accepted if and only if some item may take the entry, and then the first that takes it does, with the counts and pointers that leaves; the recursion ends with the expected items |
| `TraceChecker.Checker.CheckPage` | test/checkers/trace_checker.c:107-149 | The walk over a page visits exactly the entries appended to it and ends at its end; it fails if and only if one of them does not fit, and else leaves the checker where matching those entries leads, so the matching resumes from page to page |
| `TraceChecker.OverPages` | test/checkers/trace_checker.c:107-149 | How the entries of a trace are spread over pages makes no difference to where the matching stands or whether it fails |
| `TraceChecker.Checker.Check` | test/checkers/trace_checker.c:457-482 | An entry is checked against what is expected, and is free behind the last item; the failure flag rises exactly when no item may take it, in particular for another type, size or pointer than a required item has |
| `TraceChecker.Checker.CheckEmpty` | test/checkers/trace_checker.c:492-517 | Holds if and only if some page was checked and nothing required is left; if no check failed, the entries of all pages split into consecutive blocks, one per item with its counts, types, sizes and pointers under one assignment, and a free suffix |
| `TraceChecker.SplitAgrees` | test/checkers/trace_checker.c:258-280 | In a split every entry in the block of an item without wildcard has its type, its size if one is expected, and the pointer of its variable |
| `GreedyMatch.StepOn` | test/checkers/trace_checker.c:282-420 | Standing in a clear split, the matcher accepts the next entry and takes it into the block it belongs to |
| `GreedyMatch.CheckTrace` | test/checkers/trace_checker.c:433-517 | A trace is accepted if and only if every entry, one after the other, is taken by the current item or by the first one behind optional items that takes it, and nothing required is left. It is accepted only if it splits into the blocks of the items, every entry agreeing with its item in type, size and pointer; and it is accepted whenever it has a split in which no entry fits both its own item and one passed over for it |
| `GreedyMatch.Greed` | test/checkers/trace_checker.c:282-369 | A trace of entries of one type splits against an optional and a required item of that type, and is refused |

## Left out

- LZ4 dictionaries, streaming, partial decoding, `fillOutput`, the 32-bit `byPtr` table, big-endian
  targets and accelerations other than 1: not on the path from the writer.
- The concrete hash functions and bit-counting intrinsics: any hash into the table will do, and the
  count is the index of the first differing byte.
- In-place decompression: source and output are different memory.
- Lz4Decompress.DecompressSafe: which negative number an error returns is not stated, because callers test the sign.
- The mode with writing disabled and its memory pool: nothing is compressed or written there.
- A writer initialised without metadata, which refuses everything, and a crash in the middle of a run.
- Wrap-around of 32-bit counters (stack capacity, fragment number): stacks stay below 2^32 frames.
- The twelve header bytes in front of the compression buffer: the file is put together from its parts.
- Thread.Thread.Log: stands for all subscribers that append one entry and fill in its fields; where
  each takes its arguments from is not modelled.
- Debug output, text formatting, file-name patterns and argument parsing of the dump script.
- The thread identifier in a dumped entry: it is that of the file.
- Entries dropped because an append fails: the index an atomic had already taken is then missing from
  the log, so `AtomicReplay` assumes none is dropped.
- Weak-memory effects of the relaxed counter increment.
- Nested events: a signal handler that runs atomics while its thread is inside one.
- Recursive mutexes.
- The index checks, entry callbacks and version check of the trace checker, and pointer variables
  bound by several threads at once.
- The bitmap of seen indices in `indexes_checker.c`, and the subscribers in `subs_malloc.c`, `subs_mman.c`,
  `subs_memcpy.c`, `subs_cxa.c` and `subs_annotate_rwlock.c`, which append entries in the way `Thread.Thread.Log` does.
