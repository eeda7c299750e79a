/** Reading one load command, in `src/libane/hwx.c`. */
module HwxCommands {
  import opened Words
  import opened Wrappers
  import opened HwxFormat
  import opened Platform


  /** A segment with its block of sections, a thread state with its block of data; no block if
      there is nothing to hold. */
  datatype OwnedSegment = OwnedSegment(segment: Segment, mem: Option<nat>)
  datatype OwnedThread = OwnedThread(state: ThreadState, mem: Option<nat>)

  function Segments(segs: seq<OwnedSegment>): (r: seq<Segment>)
    ensures |r| == |segs|
  {
    seq(|segs|, i requires 0 <= i < |segs| => segs[i].segment)
  }

  function Threads(threads: seq<OwnedThread>): (r: seq<ThreadState>)
    ensures |r| == |threads|
  {
    seq(|threads|, i requires 0 <= i < |threads| => threads[i].state)
  }

  /** The blocks that segments `i` and later own. */
  function SegmentBlocks(segs: seq<OwnedSegment>, i: nat): multiset<nat>
    requires i <= |segs|
    decreases |segs| - i
  {
    if i == |segs| then multiset{} else Held(segs[i].mem) + SegmentBlocks(segs, i + 1)
  }

  function ThreadBlocks(threads: seq<OwnedThread>, i: nat): multiset<nat>
    requires i <= |threads|
    decreases |threads| - i
  {
    if i == |threads| then multiset{} else Held(threads[i].mem) + ThreadBlocks(threads, i + 1)
  }

  lemma {:induction false} SegmentBlocksAppend(segs: seq<OwnedSegment>, s: OwnedSegment, i: nat)
    requires i <= |segs|
    ensures SegmentBlocks(segs + [s], i) == SegmentBlocks(segs, i) + Held(s.mem)
    decreases |segs| - i
  {
    if i < |segs| {
      SegmentBlocksAppend(segs, s, i + 1);
    }
  }

  lemma {:induction false} ThreadBlocksAppend(threads: seq<OwnedThread>, t: OwnedThread, i: nat)
    requires i <= |threads|
    ensures ThreadBlocks(threads + [t], i) == ThreadBlocks(threads, i) + Held(t.mem)
    decreases |threads| - i
  {
    if i < |threads| {
      ThreadBlocksAppend(threads, t, i + 1);
    }
  }

  // ----- Reading -----

  /** `hwx_within_file`, on 64-bit numbers. */
  predicate WithinFile(fileSize: u64, offset: u64, length: u64)
    ensures WithinFile(fileSize, offset, length) <==> offset + length <= fileSize
  {
    if offset > fileSize then false else if length > fileSize - offset then false else true
  }

  method TrimName(src: seq<byte>) returns (dst: seq<byte>)
    ensures dst == Trim(src)
  {
    var len := 0;
    while len < |src| && src[len] != 0
      invariant 0 <= len <= |src| && 0 !in src[..len]
    {
      len := len + 1;
    }
    dst := src[..len];
    TrimIs(src, len);
  }

  lemma {:induction false} TrimIs(src: seq<byte>, len: nat)
    requires len <= |src| && 0 !in src[..len] && (len < |src| ==> src[len] == 0)
    ensures Trim(src) == src[..len]
  {
    if len > 0 {
      assert src[0] in src[..len];
      forall x | x in src[1..][..len - 1] ensures x in src[..len] {
        var k :| 0 <= k < len - 1 && src[1..][k] == x;
        assert src[..len][k + 1] == x;
      }
      TrimIs(src[1..], len - 1);
      assert src[..len] == [src[0]] + src[1..][..len - 1];
    }
  }

  /** All bytes asked for, however the transfer is split and interrupted. */
  method PreadExact(sys: System, bytes: seq<byte>, buffer: array<byte>, size: nat, offset: nat) returns (ok: bool)
    requires size <= buffer.Length
    modifies sys`interrupts, sys`faulted, buffer
    ensures old(sys.faulted) ==> sys.faulted
    ensures ok ==> sys.faulted == old(sys.faulted)
    ensures ok && size > 0 ==> offset + size <= |bytes| && buffer[..size] == bytes[offset..offset + size]
    ensures buffer[size..] == old(buffer[size..])
    ensures !ok ==> sys.faulted || offset + size > |bytes|
  {
    var total := 0;
    while total < size
      invariant 0 <= total <= size && sys.faulted == old(sys.faulted)
      invariant total > 0 ==> offset + total <= |bytes| && buffer[..total] == bytes[offset..offset + total]
      invariant buffer[size..] == old(buffer[size..])
      decreases sys.interrupts + (size - total)
    {
      ghost var before := buffer[..];
      var r := sys.Pread(bytes, buffer, total, size - total, offset + total);
      match r {
        case Interrupted =>
        case Failed =>
          return false;
        case Transferred(n) =>
          if n == 0 {
            return false;
          }
          Splice(before, buffer[..], bytes, offset, total, n, size);
          total := total + n;
      }
    }
    ok := true;
  }

  lemma Splice(before: seq<byte>, after: seq<byte>, bytes: seq<byte>, offset: nat, total: nat, n: nat, size: nat)
    requires total + n <= size <= |before| && offset + total + n <= |bytes|
    requires before[..total] == bytes[offset..offset + total]
    requires after == before[..total] + bytes[offset + total..offset + total + n] + before[total + n..]
    ensures |after| == |before| && after[size..] == before[size..]
    ensures after[..total + n] == bytes[offset..offset + total + n]
  {
    assert after[..total + n] == before[..total] + bytes[offset + total..offset + total + n];
    assert bytes[offset..offset + total + n] ==
           bytes[offset..offset + total] + bytes[offset + total..offset + total + n];
  }

  // ----- Releasing -----

  lemma TakeFirst(base: multiset<nat>, a: multiset<nat>, b: multiset<nat>, c: multiset<nat>)
    ensures a <= base + (a + b) + c && base + (a + b) + c - a == base + b + c
  {
  }

  /** `hwx_free_segments`. */
  method FreeSegments(sys: System, segs: seq<OwnedSegment>, mem: Option<nat>, ghost base: multiset<nat>)
    requires sys.Valid() && (mem.None? ==> segs == [])
    requires sys.res.blocks == base + SegmentBlocks(segs, 0) + Held(mem)
    modifies sys`res
    ensures sys.Valid() && sys.res == old(sys.res).(blocks := base)
  {
    if mem.None? {
      return;
    }
    hide System.Valid, Held;
    for i := 0 to |segs|
      invariant sys.Valid() && sys.res == old(sys.res).(blocks := base + SegmentBlocks(segs, i) + Held(mem))
    {
      TakeFirst(base, Held(segs[i].mem), SegmentBlocks(segs, i + 1), Held(mem));
      sys.Free(segs[i].mem);
    }
    sys.Free(mem);
  }

  method FreeThreads(sys: System, threads: seq<OwnedThread>, mem: Option<nat>, ghost base: multiset<nat>)
    requires sys.Valid() && (mem.None? ==> threads == [])
    requires sys.res.blocks == base + ThreadBlocks(threads, 0) + Held(mem)
    modifies sys`res
    ensures sys.Valid() && sys.res == old(sys.res).(blocks := base)
  {
    if mem.None? {
      return;
    }
    hide System.Valid, Held;
    for i := 0 to |threads|
      invariant sys.Valid() && sys.res == old(sys.res).(blocks := base + ThreadBlocks(threads, i) + Held(mem))
    {
      TakeFirst(base, Held(threads[i].mem), ThreadBlocks(threads, i + 1), Held(mem));
      sys.Free(threads[i].mem);
    }
    sys.Free(mem);
  }

  // ----- One segment command -----

  /** Reads the sections of a segment command; stops at the first one outside the file. */
  method LoadSections(cmd: seq<byte>, fileSize: u64) returns (ok: bool, sections: seq<Section>)
    requires HoldsSections(cmd)
    ensures ok ==> sections == SectionsOf(cmd, SectionCount(cmd))
    ensures ok <==>
      forall i | 0 <= i < SectionCount(cmd) :: SectionInFile(SectionsOf(cmd, SectionCount(cmd))[i], fileSize)
  {
    hide SectionAt;
    sections := [];
    var count := SectionCount(cmd);
    for i := 0 to count
      invariant sections == SectionsOf(cmd, i)
      invariant forall k | 0 <= k < i :: SectionInFile(SectionsOf(cmd, count)[k], fileSize)
    {
      SectionsPrefix(cmd, i, count);
      var o := SEGMENT_SIZE + i * SECTION_SIZE;
      SectionFits(cmd, i);
      var dst := SectionAt(cmd, o);
      if dst.size != 0 && !WithinFile(fileSize, dst.offset, dst.size) {
        assert !SectionInFile(SectionsOf(cmd, count)[i], fileSize);
        return false, sections;
      }
      sections := sections + [dst];
    }
    ok := true;
  }

  lemma SectionFits(cmd: seq<byte>, i: nat)
    requires HoldsSections(cmd) && i < SectionCount(cmd)
    ensures SEGMENT_SIZE + i * SECTION_SIZE + SECTION_SIZE <= |cmd|
  {
  }

  lemma SectionsPrefix(cmd: seq<byte>, i: nat, n: nat)
    requires HoldsSections(cmd) && i < n <= SectionCount(cmd)
    ensures SectionsOf(cmd, n)[i] == SectionAt(cmd, SEGMENT_SIZE + i * SECTION_SIZE)
    ensures SectionsOf(cmd, i + 1) == SectionsOf(cmd, i) + [SectionAt(cmd, SEGMENT_SIZE + i * SECTION_SIZE)]
  {
  }

  /** The segments read so far and the blocks they own, on top of `base`. */
  ghost predicate HoldsSegments(sys: System, base: multiset<nat>, segs: seq<OwnedSegment>, mem: Option<nat>)
    reads sys
  {
    sys.Valid() && (mem.None? ==> segs == []) && sys.res.blocks == base + SegmentBlocks(segs, 0) + Held(mem)
  }

  ghost predicate HoldsThreads(sys: System, base: multiset<nat>, threads: seq<OwnedThread>, mem: Option<nat>)
    reads sys
  {
    sys.Valid() && (mem.None? ==> threads == []) && sys.res.blocks == base + ThreadBlocks(threads, 0) + Held(mem)
  }

  /** Parses a segment command that is in the buffer; a block is kept only for its sections. */
  method ParseSegment(sys: System, buffer: array<byte>, fileSize: u64)
    returns (ok: bool, segment: Segment, secMem: Option<nat>)
    requires sys.Valid() && COMMAND_SIZE <= buffer.Length
    modifies sys
    ensures sys.Valid() && (old(sys.faulted) ==> sys.faulted)
    ensures sys.res == old(sys.res).(blocks := old(sys.res.blocks) + Held(secMem))
    ensures !ok ==> secMem == None && (sys.faulted || !SegmentOk(buffer[..], fileSize))
    ensures ok ==> sys.faulted == old(sys.faulted)
    ensures ok ==> SegmentOk(buffer[..], fileSize) && segment == SegmentOf(buffer[..])
  {
    hide SectionAt, Trim, U32, U64, SectionsOf, System.Valid;
    ok, secMem := false, None;
    segment := Segment([], 0, 0, 0, 0, 0, 0, 0, []);
    ghost var cmd := buffer[..];
    // The source reads the four bytes at 64 even of a command that ends before byte 68; what it gets
    // there is unknown, and the command is refused whatever it is.
    var nsects: u32 := *;
    if buffer.Length >= 68 {
      nsects := U32(buffer[..], 64);
    }
    var expected := SEGMENT_SIZE + nsects * SECTION_SIZE;
    if buffer.Length < expected {
      return;
    }
    NoWrap(nsects);
    assert SEGMENT_SIZE <= |cmd|;
    assert nsects == SectionCount(cmd);
    if !WithinFile(fileSize, U64(buffer[..], 40), U64(buffer[..], 48)) {
      return;
    }
    var sections := [];
    if nsects > 0 {
      secMem := sys.Malloc();
      if secMem.None? {
        return;
      }
      var inFile;
      inFile, sections := LoadSections(buffer[..], fileSize);
      if !inFile {
        sys.Free(secMem);
        secMem := None;
        return;
      }
    }
    var name := TrimName(buffer[8..24]);
    assert buffer[8..24] == buffer[..][8..24];
    segment := Segment(name, U64(buffer[..], 24), U64(buffer[..], 32), U64(buffer[..], 40), U64(buffer[..], 48),
                       U32(buffer[..], 56), U32(buffer[..], 60), U32(buffer[..], 68), sections);
    assert sections == SectionsOf(cmd, nsects) by { NoSections(cmd); }
    ok := true;
  }

  /** The length that a segment command must have, in 64 bits. */
  lemma NoWrap(nsects: u32)
    ensures SEGMENT_SIZE <= SEGMENT_SIZE + nsects * SECTION_SIZE < 0x1_0000_0000_0000_0000
  {
  }

  lemma NoSections(cmd: seq<byte>)
    requires HoldsSections(cmd)
    ensures SectionsOf(cmd, 0) == []
  {
  }

  /** Reads a segment command and parses it. */
  method ReadSegment(sys: System, bytes: seq<byte>, offset: nat, buffer: array<byte>)
    returns (ok: bool, segment: Segment, secMem: Option<nat>)
    requires sys.Valid() && COMMAND_SIZE <= buffer.Length && offset + buffer.Length <= |bytes| < 0x1_0000_0000_0000_0000
    modifies sys, buffer
    ensures sys.Valid() && (old(sys.faulted) ==> sys.faulted)
    ensures sys.res == old(sys.res).(blocks := old(sys.res.blocks) + Held(secMem))
    ensures !ok ==> secMem == None && (sys.faulted || !SegmentOk(bytes[offset..offset + buffer.Length], |bytes|))
    ensures ok ==> sys.faulted == old(sys.faulted) && SegmentOk(bytes[offset..offset + buffer.Length], |bytes|)
    ensures ok ==> segment == SegmentOf(bytes[offset..offset + buffer.Length])
  {
    hide SegmentOk, SegmentOf, System.Valid;
    ok, segment, secMem := false, Segment([], 0, 0, 0, 0, 0, 0, 0, []), None;
    var read := PreadExact(sys, bytes, buffer, buffer.Length, offset);
    if !read {
      AddNothing(sys.res.blocks);
      return;
    }
    assert buffer[..] == bytes[offset..offset + buffer.Length];
    ok, segment, secMem := ParseSegment(sys, buffer, |bytes|);
  }

  /** The segment becomes one more element of the growing array, or its block is released. */
  method AppendSegment(sys: System, segment: Segment, secMem: Option<nat>, segs: seq<OwnedSegment>, mem: Option<nat>,
                       ghost base: multiset<nat>)
    returns (ok: bool, segs': seq<OwnedSegment>, mem': Option<nat>)
    requires sys.Valid() && (mem.None? ==> segs == [])
    requires sys.res.blocks == base + SegmentBlocks(segs, 0) + Held(mem) + Held(secMem)
    modifies sys`res, sys`next, sys`faulted
    ensures HoldsSegments(sys, base, segs', mem') && (old(sys.faulted) ==> sys.faulted)
    ensures sys.res.(blocks := multiset{}) == old(sys.res).(blocks := multiset{})
    ensures !ok ==> sys.faulted && segs' == segs && mem' == mem
    ensures ok ==> sys.faulted == old(sys.faulted) && Segments(segs') == Segments(segs) + [segment]
  {
    hide Segments, SegmentBlocks, System.Valid, Held;
    ok, segs', mem' := false, segs, mem;
    ghost var owned := SegmentBlocks(segs, 0);
    TakeBack(base, owned, Held(mem), Held(secMem));
    var more := sys.Realloc(mem);
    if more.None? {
      sys.Free(secMem);
      return;
    }
    ok, mem' := true, more;
    segs' := segs + [OwnedSegment(segment, secMem)];
    SegmentBlocksAppend(segs, OwnedSegment(segment, secMem), 0);
    SegmentsAppend(segs, OwnedSegment(segment, secMem));
    Swap(base, owned, Held(mem), Held(secMem), Held(more));
  }

  /** Either the segment that the command declares is appended, or nothing is kept of it. */
  method BufferSegment(sys: System, bytes: seq<byte>, offset: nat, buffer: array<byte>, segs: seq<OwnedSegment>,
                       mem: Option<nat>, ghost base: multiset<nat>)
    returns (ok: bool, segs': seq<OwnedSegment>, mem': Option<nat>)
    requires HoldsSegments(sys, base, segs, mem)
    requires COMMAND_SIZE <= buffer.Length && offset + buffer.Length <= |bytes| < 0x1_0000_0000_0000_0000
    modifies sys, buffer
    ensures HoldsSegments(sys, base, segs', mem') && (old(sys.faulted) ==> sys.faulted)
    ensures sys.res.(blocks := multiset{}) == old(sys.res).(blocks := multiset{})
    ensures SegmentOutcome(bytes, bytes[offset..offset + buffer.Length], sys.faulted, old(sys.faulted), ok, segs, segs')
    ensures !ok ==> mem' == mem
  {
    hide Segments, SegmentOk, SegmentOf, SegmentBlocks, System.Valid, Held;
    var segment, secMem;
    ok, segment, secMem := ReadSegment(sys, bytes, offset, buffer);
    if !ok {
      NothingHeld();
      AddNothing(base + SegmentBlocks(segs, 0) + Held(mem));
      return ok, segs, mem;
    }
    ok, segs', mem' := AppendSegment(sys, segment, secMem, segs, mem, base);
  }

  ghost predicate SegmentOutcome(bytes: seq<byte>, cmd: seq<byte>, faulted: bool, before: bool, ok: bool,
                                 segs: seq<OwnedSegment>, segs': seq<OwnedSegment>) {
    if ok then faulted == before && SegmentOk(cmd, |bytes|) && Segments(segs') == Segments(segs) + [SegmentOf(cmd)]
    else segs' == segs && (faulted || !SegmentOk(cmd, |bytes|))
  }

  method LoadSegment(sys: System, bytes: seq<byte>, offset: nat, cmdsize: u32, segs: seq<OwnedSegment>,
                     mem: Option<nat>, ghost base: multiset<nat>)
    returns (ok: bool, segs': seq<OwnedSegment>, mem': Option<nat>)
    requires HoldsSegments(sys, base, segs, mem) && COMMAND_SIZE <= cmdsize && offset + cmdsize <= |bytes|
    requires |bytes| < 0x1_0000_0000_0000_0000
    modifies sys
    ensures HoldsSegments(sys, base, segs', mem') && (old(sys.faulted) ==> sys.faulted)
    ensures sys.res.(blocks := multiset{}) == old(sys.res).(blocks := multiset{})
    ensures SegmentOutcome(bytes, bytes[offset..offset + cmdsize], sys.faulted, old(sys.faulted), ok, segs, segs')
    ensures !ok ==> mem' == mem
  {
    hide HoldsSegments, SegmentOutcome, SegmentBlocks, System.Valid, Held;
    SegmentsHeld(sys, base, segs, mem);
    var block := sys.Malloc();
    if block.None? {
      NoBlockSegments(sys, base, segs, mem);
      RefusedSegment(bytes, bytes[offset..offset + cmdsize], old(sys.faulted), segs);
      return false, segs, mem;
    }
    var buffer := new byte[cmdsize];
    ShelveSegments(sys, base, segs, mem, block);
    ok, segs', mem' := BufferSegment(sys, bytes, offset, buffer, segs, mem, base + Held(block));
    ShelveSegments(sys, base, segs', mem', block);
    sys.Free(block);
    SegmentsHeld(sys, base, segs', mem');
  }

  lemma SegmentsHeld(sys: System, base: multiset<nat>, segs: seq<OwnedSegment>, mem: Option<nat>)
    ensures HoldsSegments(sys, base, segs, mem) <==>
      (sys.Valid() && (mem.None? ==> segs == []) && sys.res.blocks == base + SegmentBlocks(segs, 0) + Held(mem))
  {
  }

  lemma NoBlockSegments(sys: System, base: multiset<nat>, segs: seq<OwnedSegment>, mem: Option<nat>)
    requires sys.Valid() && (mem.None? ==> segs == [])
    requires sys.res.blocks == base + SegmentBlocks(segs, 0) + Held(mem) + Held(None)
    ensures HoldsSegments(sys, base, segs, mem)
  {
    assert sys.res.blocks + multiset{} == sys.res.blocks;
  }

  lemma RefusedSegment(bytes: seq<byte>, cmd: seq<byte>, before: bool, segs: seq<OwnedSegment>)
    ensures SegmentOutcome(bytes, cmd, true, before, false, segs, segs)
  {
  }

  /** The block of the command buffer, apart from what the segments own. */
  lemma ShelveSegments(sys: System, base: multiset<nat>, segs: seq<OwnedSegment>, mem: Option<nat>, block: Option<nat>)
    ensures HoldsSegments(sys, base + Held(block), segs, mem) <==>
      (sys.Valid() && (mem.None? ==> segs == []) &&
       sys.res.blocks == base + SegmentBlocks(segs, 0) + Held(mem) + Held(block))
    ensures HoldsSegments(sys, base + Held(block), segs, mem) ==>
      Held(block) <= sys.res.blocks && sys.res.blocks - Held(block) == base + SegmentBlocks(segs, 0) + Held(mem)
  {
    hide System.Valid, SegmentBlocks, Held;
    Shelve(base, SegmentBlocks(segs, 0), Held(mem), Held(block));
  }

  lemma NothingHeld()
    ensures Held(None) == multiset{}
  {
  }

  lemma SegmentsAppend(segs: seq<OwnedSegment>, s: OwnedSegment)
    ensures Segments(segs + [s]) == Segments(segs) + [s.segment]
  {
  }

  // ----- One thread command -----

  lemma ThreadsAppend(threads: seq<OwnedThread>, t: OwnedThread)
    ensures Threads(threads + [t]) == Threads(threads) + [t.state]
  {
  }

  /** One turn of the record loop; the record is appended, or the blocks are as before. */
  method AppendThread(sys: System, state: ThreadState, threads: seq<OwnedThread>, mem: Option<nat>,
                      ghost base: multiset<nat>)
    returns (ok: bool, threads': seq<OwnedThread>, mem': Option<nat>)
    requires HoldsThreads(sys, base, threads, mem)
    modifies sys`res, sys`next, sys`faulted
    ensures HoldsThreads(sys, base, threads', mem') && (old(sys.faulted) ==> sys.faulted)
    ensures sys.res.(blocks := multiset{}) == old(sys.res).(blocks := multiset{})
    ensures !ok ==> sys.faulted && threads' == threads && mem' == mem
    ensures ok ==> sys.faulted == old(sys.faulted) && Threads(threads') == Threads(threads) + [state]
  {
    hide Threads, ThreadBlocks, System.Valid, Held;
    ok, threads', mem' := false, threads, mem;
    ghost var owned := ThreadBlocks(threads, 0);
    var block: Option<nat> := None;
    NothingHeld();
    AddNothing(sys.res.blocks);
    if |state.data| > 0 {
      block := sys.Malloc();
      if block.None? {
        return;
      }
    }
    assert sys.res.blocks == base + owned + Held(mem) + Held(block);
    TakeBack(base, owned, Held(mem), Held(block));
    var more := sys.Realloc(mem);
    if more.None? {
      sys.Free(block);
      return;
    }
    ok, mem' := true, more;
    threads' := threads + [OwnedThread(state, block)];
    ThreadBlocksAppend(threads, OwnedThread(state, block), 0);
    ThreadsAppend(threads, OwnedThread(state, block));
    Swap(base, owned, Held(mem), Held(block), Held(more));
  }

  lemma AddNothing(a: multiset<nat>)
    ensures a + multiset{} == a
  {
  }

  lemma TakeBack(base: multiset<nat>, owned: multiset<nat>, m: multiset<nat>, block: multiset<nat>)
    ensures var all := base + owned + m + block;
      m <= all && block <= all && all - block == base + owned + m
  {
  }

  lemma Swap(base: multiset<nat>, owned: multiset<nat>, m: multiset<nat>, block: multiset<nat>, more: multiset<nat>)
    ensures base + owned + m + block - m + more == base + (owned + block) + more
  {
  }

  /** The record loop over a thread command; its measure is what remains of the command. */
  method ScanThread(sys: System, buffer: array<byte>, threads: seq<OwnedThread>, mem: Option<nat>,
                    ghost base: multiset<nat>)
    returns (ok: bool, threads': seq<OwnedThread>, mem': Option<nat>)
    requires HoldsThreads(sys, base, threads, mem) && COMMAND_SIZE <= buffer.Length < 0x1_0000_0000
    modifies sys`res, sys`next, sys`faulted
    ensures HoldsThreads(sys, base, threads', mem') && (old(sys.faulted) ==> sys.faulted)
    ensures sys.res.(blocks := multiset{}) == old(sys.res).(blocks := multiset{})
    ensures !ok ==> sys.faulted
    ensures ok ==> sys.faulted == old(sys.faulted)
    ensures ok ==> Threads(threads') == Threads(threads) + Records(buffer[..], COMMAND_SIZE)
  {
    hide Threads, ThreadBlocks, HoldsThreads, U32, Records, BlobSize;
    ghost var cmd, done := buffer[..], [];
    ok, threads', mem' := true, threads, mem;
    var cursor := COMMAND_SIZE;
    var remaining: nat := buffer.Length - COMMAND_SIZE;
    while remaining >= 8
      invariant COMMAND_SIZE <= cursor && cursor + remaining == buffer.Length
      invariant HoldsThreads(sys, base, threads', mem') && sys.faulted == old(sys.faulted)
      invariant sys.res.(blocks := multiset{}) == old(sys.res).(blocks := multiset{})
      invariant Threads(threads') == Threads(threads) + done
      invariant done + Records(cmd, cursor) == Records(cmd, COMMAND_SIZE)
      decreases remaining
    {
      var flavor, count := U32(buffer[..], cursor), U32(buffer[..], cursor + 4);
      var start := cursor;
      cursor, remaining := cursor + 8, remaining - 8;
      var byteCount := count * 4;
      assert count != 0 ==> byteCount / 4 == count;  // the overflow test never fires on 64 bits
      if byteCount > remaining {
        byteCount := remaining;
      }
      BlobSizeIs(cmd, start);
      assert byteCount == BlobSize(cmd, start) <= 0xFFFF_FFFF;  // the clamp to UINT32_MAX never acts
      var state := ThreadState(flavor, count, buffer[cursor..cursor + byteCount]);
      assert state.data == cmd[cursor..cursor + byteCount];
      ok, threads', mem' := AppendThread(sys, state, threads', mem', base);
      if !ok {
        return;
      }
      RecordsNext(cmd, start);
      done := done + [state];
      cursor, remaining := cursor + byteCount, remaining - byteCount;
    }
    assert Records(cmd, cursor) == [] by { RecordsEnd(cmd, cursor); }
  }

  lemma BlobSizeIs(cmd: seq<byte>, o: nat)
    requires o + 8 <= |cmd|
    ensures var wanted, left := U32(cmd, o + 4) * 4, |cmd| - (o + 8);
      BlobSize(cmd, o) == if wanted > left then left else wanted
  {
  }

  lemma RecordsNext(cmd: seq<byte>, o: nat)
    requires o + 8 <= |cmd|
    ensures var n := BlobSize(cmd, o);
      Records(cmd, o) == [ThreadState(U32(cmd, o), U32(cmd, o + 4), cmd[o + 8..o + 8 + n])] + Records(cmd, o + 8 + n)
  {
  }

  lemma RecordsEnd(cmd: seq<byte>, o: nat)
    requires o <= |cmd| < o + 8
    ensures Records(cmd, o) == []
  {
  }

  method ReadThread(sys: System, bytes: seq<byte>, offset: nat, buffer: array<byte>, threads: seq<OwnedThread>,
                    mem: Option<nat>, ghost base: multiset<nat>)
    returns (ok: bool, threads': seq<OwnedThread>, mem': Option<nat>)
    requires HoldsThreads(sys, base, threads, mem) && offset + buffer.Length <= |bytes|
    requires COMMAND_SIZE <= buffer.Length < 0x1_0000_0000
    modifies sys, buffer
    ensures HoldsThreads(sys, base, threads', mem') && (old(sys.faulted) ==> sys.faulted)
    ensures sys.res.(blocks := multiset{}) == old(sys.res).(blocks := multiset{})
    ensures !ok ==> sys.faulted
    ensures ok ==> sys.faulted == old(sys.faulted)
    ensures ok ==> Threads(threads') == Threads(threads) + Records(bytes[offset..offset + buffer.Length], COMMAND_SIZE)
  {
    hide Threads, ThreadBlocks, Records, System.Valid, Held;
    var read := PreadExact(sys, bytes, buffer, buffer.Length, offset);
    if !read {
      return false, threads, mem;
    }
    assert buffer[..] == bytes[offset..offset + buffer.Length];
    ok, threads', mem' := ScanThread(sys, buffer, threads, mem, base);
  }

  /** The records that the command declares are appended. */
  method LoadThread(sys: System, bytes: seq<byte>, offset: nat, cmdsize: u32, threads: seq<OwnedThread>,
                    mem: Option<nat>, ghost base: multiset<nat>)
    returns (ok: bool, threads': seq<OwnedThread>, mem': Option<nat>)
    requires HoldsThreads(sys, base, threads, mem) && COMMAND_SIZE + 8 <= cmdsize && offset + cmdsize <= |bytes|
    modifies sys
    ensures HoldsThreads(sys, base, threads', mem') && (old(sys.faulted) ==> sys.faulted)
    ensures sys.res.(blocks := multiset{}) == old(sys.res).(blocks := multiset{})
    ensures !ok ==> sys.faulted
    ensures ok ==> sys.faulted == old(sys.faulted)
    ensures ok ==> Threads(threads') == Threads(threads) + Records(bytes[offset..offset + cmdsize], COMMAND_SIZE)
  {
    hide HoldsThreads, Threads, ThreadBlocks, Records, System.Valid, Held;
    ThreadsHeld(sys, base, threads, mem);
    var block := sys.Malloc();
    if block.None? {
      NoBlockThreads(sys, base, threads, mem);
      return false, threads, mem;
    }
    var buffer := new byte[cmdsize];
    ShelveThreads(sys, base, threads, mem, block);
    ok, threads', mem' := ReadThread(sys, bytes, offset, buffer, threads, mem, base + Held(block));
    ShelveThreads(sys, base, threads', mem', block);
    sys.Free(block);
    ThreadsHeld(sys, base, threads', mem');
  }

  lemma ThreadsHeld(sys: System, base: multiset<nat>, threads: seq<OwnedThread>, mem: Option<nat>)
    ensures HoldsThreads(sys, base, threads, mem) <==>
      (sys.Valid() && (mem.None? ==> threads == []) && sys.res.blocks == base + ThreadBlocks(threads, 0) + Held(mem))
  {
  }

  lemma NoBlockThreads(sys: System, base: multiset<nat>, threads: seq<OwnedThread>, mem: Option<nat>)
    requires sys.Valid() && (mem.None? ==> threads == [])
    requires sys.res.blocks == base + ThreadBlocks(threads, 0) + Held(mem) + Held(None)
    ensures HoldsThreads(sys, base, threads, mem)
  {
    assert sys.res.blocks + multiset{} == sys.res.blocks;
  }

  lemma ShelveThreads(sys: System, base: multiset<nat>, threads: seq<OwnedThread>, mem: Option<nat>, block: Option<nat>)
    ensures HoldsThreads(sys, base + Held(block), threads, mem) <==>
      (sys.Valid() && (mem.None? ==> threads == []) &&
       sys.res.blocks == base + ThreadBlocks(threads, 0) + Held(mem) + Held(block))
    ensures HoldsThreads(sys, base + Held(block), threads, mem) ==>
      Held(block) <= sys.res.blocks && sys.res.blocks - Held(block) == base + ThreadBlocks(threads, 0) + Held(mem)
  {
    hide System.Valid, ThreadBlocks, Held;
    Shelve(base, ThreadBlocks(threads, 0), Held(mem), Held(block));
  }

  lemma Shelve(base: multiset<nat>, owned: multiset<nat>, m: multiset<nat>, block: multiset<nat>)
    ensures base + owned + m + block == base + block + owned + m
    ensures block <= base + block + owned + m
    ensures base + block + owned + m - block == base + owned + m
  {
  }
}
