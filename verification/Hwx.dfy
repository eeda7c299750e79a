/** The loader of `src/libane/hwx.c`: opening and closing files, lookups and reads. */
module Hwx {
  import opened Words
  import opened Wrappers
  import opened HwxFormat
  import opened Platform
  import opened HwxCommands

  // ----- The command loop -----

  /** What has been loaded so far. */
  datatype Progress = Progress(
    segments: seq<OwnedSegment>, segmentsMem: Option<nat>, threads: seq<OwnedThread>, threadsMem: Option<nat>)

  /** Without a block there is nothing in it. */
  predicate Shaped(p: Progress) {
    (p.segmentsMem.None? ==> p.segments == []) && (p.threadsMem.None? ==> p.threads == [])
  }

  function SegmentShare(p: Progress): multiset<nat> { SegmentBlocks(p.segments, 0) + Held(p.segmentsMem) }
  function ThreadShare(p: Progress): multiset<nat> { ThreadBlocks(p.threads, 0) + Held(p.threadsMem) }

  ghost predicate Holding(sys: System, base: multiset<nat>, p: Progress)
    reads sys
  {
    sys.Valid() && Shaped(p) &&
    sys.res.blocks == base + SegmentShare(p) + ThreadShare(p)
  }

  lemma HoldingShares(sys: System, base: multiset<nat>, p: Progress)
    requires sys.Valid() && Shaped(p)
    ensures Holding(sys, base, p) <==> HoldsSegments(sys, base + ThreadShare(p), p.segments, p.segmentsMem)
    ensures Holding(sys, base, p) <==> HoldsThreads(sys, base + SegmentShare(p), p.threads, p.threadsMem)
  {
    hide SegmentBlocks, ThreadBlocks, Held, System.Valid;
    var a, b := SegmentBlocks(p.segments, 0), Held(p.segmentsMem);
    var c, d := ThreadBlocks(p.threads, 0), Held(p.threadsMem);
    assert base + (a + b) + (c + d) == base + (c + d) + a + b;
    assert base + (a + b) + (c + d) == base + (a + b) + c + d;
  }

  lemma U32Slice(b: seq<byte>, lo: nat, hi: nat, o: nat)
    requires lo <= hi <= |b| && o + 4 <= hi - lo
    ensures U32(b[lo..hi], o) == U32(b, lo + o)
  {
  }

  /** The command from `lo` to `hi` is well formed, and what it declares has been added. */
  predicate Gains(b: seq<byte>, lo: nat, hi: nat, p: Progress, q: Progress) {
    CommandOk(b, lo, hi) &&
    Segments(q.segments) == Segments(p.segments) + SegmentsIn(b, lo, hi) &&
    Threads(q.threads) == Threads(p.threads) + ThreadsIn(b, lo, hi)
  }

  /** Reads the two words that start a command and checks the length against what remains. */
  method ReadCommand(sys: System, bytes: seq<byte>, offset: nat, remaining: nat)
    returns (ok: bool, kind: u32, cmdsize: u32)
    requires offset + remaining <= |bytes|
    modifies sys`interrupts, sys`faulted
    ensures old(sys.faulted) ==> sys.faulted
    ensures !ok ==> sys.faulted || !NextOk(bytes, offset, offset + remaining)
    ensures ok ==> sys.faulted == old(sys.faulted) && COMMAND_SIZE <= cmdsize <= remaining
    ensures ok ==> kind == CommandKind(bytes, offset) && cmdsize == U32(bytes, offset + 4)
  {
    hide U32, SegmentOk;
    ok, kind, cmdsize := false, 0, 0;
    if remaining < COMMAND_SIZE {
      return;
    }
    var lc := new byte[COMMAND_SIZE];
    var read := PreadExact(sys, bytes, lc, COMMAND_SIZE, offset);
    if !read {
      return;
    }
    assert lc[..] == bytes[offset..offset + COMMAND_SIZE];
    U32Slice(bytes, offset, offset + COMMAND_SIZE, 0);
    U32Slice(bytes, offset, offset + COMMAND_SIZE, 4);
    kind, cmdsize := U32(lc[..], 0), U32(lc[..], 4);
    ok := COMMAND_SIZE <= cmdsize <= remaining;
  }

  /** One turn of the command loop; what is kept on an error is released by the caller. */
  method LoadCommand(sys: System, bytes: seq<byte>, offset: nat, remaining: nat, p: Progress, ghost base: multiset<nat>)
    returns (ok: bool, cmdsize: u32, p': Progress)
    requires Holding(sys, base, p) && offset + remaining <= |bytes| < 0x1_0000_0000_0000_0000
    modifies sys
    ensures Holding(sys, base, p') && (old(sys.faulted) ==> sys.faulted)
    ensures sys.res.(blocks := multiset{}) == old(sys.res).(blocks := multiset{})
    ensures !ok ==> sys.faulted || !NextOk(bytes, offset, offset + remaining)
    ensures ok ==> sys.faulted == old(sys.faulted) && cmdsize <= remaining
    ensures ok ==> Gains(bytes, offset, offset + cmdsize, p, p')
  {
    hide Segments, Threads, Records, SegmentOk, SegmentOf, SegmentBlocks, ThreadBlocks, Held, U32, System.Valid;
    hide SegmentShare, ThreadShare;
    var kind;
    p' := p;
    ok, kind, cmdsize := ReadCommand(sys, bytes, offset, remaining);
    if !ok {
      return;
    }
    HoldingShares(sys, base, p);
    if kind == LC_SEGMENT_64 {
      var segs, mem;
      ok, segs, mem := LoadSegment(sys, bytes, offset, cmdsize, p.segments, p.segmentsMem, base + ThreadShare(p));
      p' := p.(segments := segs, segmentsMem := mem);
      SameThreads(p, p');
      HoldingShares(sys, base, p');
    } else if kind == LC_THREAD {
      if cmdsize < COMMAND_SIZE + 8 {
        ok := false;
        return;
      }
      var threads, mem;
      ok, threads, mem := LoadThread(sys, bytes, offset, cmdsize, p.threads, p.threadsMem, base + SegmentShare(p));
      p' := p.(threads := threads, threadsMem := mem);
      SameSegments(p, p');
      HoldingShares(sys, base, p');
    }
  }

  lemma SameThreads(p: Progress, q: Progress)
    requires p.threads == q.threads && p.threadsMem == q.threadsMem
    ensures ThreadShare(p) == ThreadShare(q)
  {
  }

  lemma SameSegments(p: Progress, q: Progress)
    requires p.segments == q.segments && p.segmentsMem == q.segmentsMem
    ensures SegmentShare(p) == SegmentShare(q)
  {
  }

  /** Everything that the commands between the cuts declare has been loaded. */
  ghost predicate Covers(b: seq<byte>, cuts: seq<nat>, p: Progress) {
    Chain(b, cuts) && Segments(p.segments) == SegmentsOf(b, cuts) && Threads(p.threads) == ThreadsOf(b, cuts)
  }

  lemma CoversStart(b: seq<byte>)
    ensures Covers(b, [HEADER_SIZE], Progress([], None, [], None))
  {
  }

  lemma CoversMore(b: seq<byte>, cuts: seq<nat>, hi: nat, p: Progress, q: Progress)
    requires Covers(b, cuts, p) && Gains(b, cuts[|cuts| - 1], hi, p, q)
    ensures Covers(b, cuts + [hi], q)
  {
    hide CommandOk, SegmentsIn, ThreadsIn, SegmentsOf, ThreadsOf, Segments, Threads, Chain;
    ChainStarts(b, cuts);
    ChainExtend(b, cuts, hi);
  }

  lemma ChainStarts(b: seq<byte>, cuts: seq<nat>)
    requires Chain(b, cuts)
    ensures |cuts| > 0
  {
  }

  lemma NothingHolding(sys: System)
    requires sys.Valid()
    ensures Holding(sys, sys.res.blocks, Progress([], None, [], None))
  {
  }

  method LoadCommands(sys: System, bytes: seq<byte>) returns (ok: bool, p: Progress, ghost cuts: seq<nat>)
    requires sys.Valid() && HeaderOk(bytes) && |bytes| < 0x1_0000_0000_0000_0000
    modifies sys
    ensures Holding(sys, old(sys.res.blocks), p) && (old(sys.faulted) ==> sys.faulted)
    ensures sys.res.(blocks := multiset{}) == old(sys.res).(blocks := multiset{})
    ensures !ok ==> sys.faulted || !Accepts(bytes)
    ensures ok ==> sys.faulted == old(sys.faulted) && Tiles(bytes, cuts) && Covers(bytes, cuts, p)
  {
    hide CommandOk, SegmentsIn, ThreadsIn, SegmentsOf, ThreadsOf, Segments, Threads, U32, Accepts, Gains;
    hide Holding, System.Valid;
    ghost var base := sys.res.blocks;
    ok, p, cuts := false, Progress([], None, [], None), [HEADER_SIZE];
    CoversStart(bytes);
    NothingHolding(sys);
    var remainingCmds: nat := CommandCount(bytes);
    var offset: nat, remainingBytes: nat := HEADER_SIZE, CommandBytes(bytes);
    while remainingCmds > 0
      invariant remainingCmds <= CommandCount(bytes) && |cuts| == CommandCount(bytes) - remainingCmds + 1
      invariant cuts[|cuts| - 1] == offset && offset + remainingBytes == HEADER_SIZE + CommandBytes(bytes)
      invariant Covers(bytes, cuts, p) && Holding(sys, base, p) && sys.faulted == old(sys.faulted)
      invariant sys.res.(blocks := multiset{}) == old(sys.res).(blocks := multiset{})
      decreases remainingCmds
    {
      remainingCmds := remainingCmds - 1;
      var cmdsize, q;
      ok, cmdsize, q := LoadCommand(sys, bytes, offset, remainingBytes, p, base);
      if !ok {
        p := q;
        if !sys.faulted {
          BadCommandRefuses(bytes, cuts);
        }
        return;
      }
      CoversMore(bytes, cuts, offset + cmdsize, p, q);
      p, cuts := q, cuts + [offset + cmdsize];
      offset, remainingBytes := offset + cmdsize, remainingBytes - cmdsize;
    }
    ok := remainingBytes == 0;
    if !ok {
      ShortCommandsRefuse(bytes, cuts);
    }
  }

  // ----- Lookups -----

  datatype Header = Header(
    magic: u32, cputype: u32, cpusubtype: u32, filetype: u32, ncmds: u32, sizeofcmds: u32, flags: u32, reserved: u32)

  /** An open file; `mem` is its own block. */
  datatype HwxFile = HwxFile(
    mem: nat, fd: nat, bytes: seq<byte>, fileSize: u64, header: Header, parts: Progress, tdVersion: u32)

  function HeaderOf(b: seq<byte>): Header
    requires HEADER_SIZE <= |b|
  {
    Header(U32(b, 0), U32(b, 4), U32(b, 8), U32(b, 12), U32(b, 16), U32(b, 20), U32(b, 24), U32(b, 28))
  }

  /** The task descriptor version of a processor; only the low byte of the subtype counts. */
  function TdVersion(cpusubtype: u32): u32 {
    match cpusubtype % 0x100
    case 0 => 5
    case 1 => 5
    case 2 => 4
    case 3 => 6
    case 4 => 7
    case 5 => 11
    case 6 => 8
    case _ => 0
  }

  /** Section `j` of segment `i` has this name, in the segment asked for if one is. */
  predicate Matches(segs: seq<Segment>, segment: Option<seq<byte>>, section: seq<byte>, i: nat, j: nat) {
    i < |segs| && j < |segs[i].sections| && InSegment(segs[i], segment) && segs[i].sections[j].sectionName == section
  }

  predicate InSegment(s: Segment, segment: Option<seq<byte>>) {
    segment.None? || segment.value == [] || s.name == segment.value
  }

  predicate Before(i: nat, j: nat, k: nat, l: nat) { i < k || (i == k && j < l) }

  /** `hwx_section_by_name`: the first section that matches, in file order. */
  method SectionByName(file: Option<HwxFile>, segment: Option<seq<byte>>, section: Option<seq<byte>>)
    returns (found: Option<(nat, nat)>)
    ensures file.None? || section.None? ==> found.None?
    ensures file.Some? && section.Some? ==>
      FirstMatch(Segments(file.value.parts.segments), segment, section.value, found)
  {
    if file.None? || section.None? {
      return None;
    }
    var segments := file.value.parts.segments;
    for i := 0 to |segments|
      invariant forall k: nat, l: nat | k < i :: !Matches(Segments(segments), segment, section.value, k, l)
    {
      var s := segments[i].segment;
      if segment.Some? && segment.value != [] && s.name != segment.value {
        continue;
      }
      for j := 0 to |s.sections|
        invariant forall k: nat, l: nat | Before(k, l, i, j) ::
          !Matches(Segments(segments), segment, section.value, k, l)
      {
        if s.sections[j].sectionName == section.value {
          assert Matches(Segments(segments), segment, section.value, i, j);
          return Some((i, j));
        }
      }
    }
    return None;
  }

  ghost predicate FirstMatch(segs: seq<Segment>, segment: Option<seq<byte>>, section: seq<byte>,
                             found: Option<(nat, nat)>)
  {
    if found.None? then forall k: nat, l: nat :: !Matches(segs, segment, section, k, l)
    else IsFirst(segs, segment, section, found.value.0, found.value.1)
  }

  ghost predicate IsFirst(segs: seq<Segment>, segment: Option<seq<byte>>, section: seq<byte>, i: nat, j: nat) {
    Matches(segs, segment, section, i, j) &&
    forall k: nat, l: nat | Before(k, l, i, j) :: !Matches(segs, segment, section, k, l)
  }

  /** A lookup by both names finds something exactly if there is something to find. */
  lemma FoundIffThere(segs: seq<Segment>, segment: seq<byte>, section: seq<byte>, found: Option<(nat, nat)>)
    requires FirstMatch(segs, Some(segment), section, found) && segment != []
    ensures found.Some? <==> HasSection(segs, segment, section)
  {
    if found.Some? {
      assert IsNamed(segs, segment, section, found.value.0, found.value.1);
    } else if HasSection(segs, segment, section) {
      var i: nat, j: nat :| IsNamed(segs, segment, section, i, j);
      assert Matches(segs, Some(segment), section, i, j);
    }
  }

  // ----- Opening and closing -----

  function Blocks(f: HwxFile): multiset<nat> {
    SegmentShare(f.parts) + ThreadShare(f.parts) + multiset{f.mem}
  }

  function Gained(r: Resources, f: HwxFile): Resources {
    r.(blocks := r.blocks + Blocks(f), fds := r.fds + multiset{f.fd})
  }

  function Lost(r: Resources, f: HwxFile): Resources {
    r.(blocks := r.blocks - Blocks(f), fds := r.fds - multiset{f.fd})
  }

  /** Closing undoes opening. */
  lemma LostGained(r: Resources, f: HwxFile)
    ensures Lost(Gained(r, f), f) == r
  {
    var g := Gained(r, f);
    assert g.blocks - Blocks(f) == r.blocks && g.fds - multiset{f.fd} == r.fds;
  }

  ghost predicate Cut(f: HwxFile, cuts: seq<nat>) {
    HeaderOk(f.bytes) && Tiles(f.bytes, cuts) && Covers(f.bytes, cuts, f.parts)
  }

  /** The file is acceptable, and what is held is what it declares, in order. */
  ghost predicate Loaded(f: HwxFile) {
    Accepts(f.bytes) && f.fileSize == |f.bytes| && f.header == HeaderOf(f.bytes) &&
    f.tdVersion == TdVersion(f.header.cpusubtype) && (exists cuts :: Cut(f, cuts)) &&
    Shaped(f.parts)
  }

  /** The error exit: whatever has been loaded is released. */
  method Release(sys: System, fd: nat, mem: nat, p: Progress, ghost base: multiset<nat>)
    requires Holding(sys, base + multiset{mem}, p) && fd in sys.res.fds
    modifies sys`res
    ensures sys.Valid() && sys.res == old(sys.res).(blocks := base, fds := old(sys.res.fds) - multiset{fd})
  {
    hide Holding, System.Valid, ThreadBlocks, SegmentBlocks, SegmentShare;
    HoldingValid(sys, base + multiset{mem}, p);
    HoldingShares(sys, base + multiset{mem}, p);
    FreeThreads(sys, p.threads, p.threadsMem, base + multiset{mem} + SegmentShare(p));
    ShareIs(p);
    assert base + multiset{mem} + SegmentShare(p) ==
           base + multiset{mem} + SegmentBlocks(p.segments, 0) + Held(p.segmentsMem);
    FreeSegments(sys, p.segments, p.segmentsMem, base + multiset{mem});
    sys.Close(fd);
    sys.Free(Some(mem));
  }

  lemma HoldingValid(sys: System, base: multiset<nat>, p: Progress)
    requires Holding(sys, base, p)
    ensures sys.Valid() && Shaped(p)
  {
  }

  lemma ShareIs(p: Progress)
    ensures SegmentShare(p) == SegmentBlocks(p.segments, 0) + Held(p.segmentsMem)
  {
  }

  /** Reads the file header; refuses a wrong magic number and commands that leave the file. */
  method ReadHeader(sys: System, bytes: seq<byte>) returns (ok: bool, header: Header)
    requires |bytes| < 0x1_0000_0000_0000_0000
    modifies sys`interrupts, sys`faulted
    ensures old(sys.faulted) ==> sys.faulted
    ensures !ok ==> sys.faulted || !HeaderOk(bytes)
    ensures ok ==> sys.faulted == old(sys.faulted) && HeaderOk(bytes) && header == HeaderOf(bytes)
  {
    hide U32;
    ok, header := false, Header(0, 0, 0, 0, 0, 0, 0, 0);
    var buffer := new byte[HEADER_SIZE];
    var read := PreadExact(sys, bytes, buffer, HEADER_SIZE, 0);
    if !read {
      return;
    }
    assert buffer[..] == bytes[..HEADER_SIZE];
    HeaderSlice(bytes);
    header := HeaderOf(buffer[..]);
    ok := header.magic == MAGIC && WithinFile(|bytes|, HEADER_SIZE, header.sizeofcmds);
  }

  lemma HeaderSlice(b: seq<byte>)
    requires HEADER_SIZE <= |b|
    ensures HeaderOf(b[..HEADER_SIZE]) == HeaderOf(b)
  {
    hide U32;
    forall o: nat | o + 4 <= HEADER_SIZE ensures U32(b[..HEADER_SIZE], o) == U32(b, o) {
      U32Slice(b, 0, HEADER_SIZE, o);
    }
  }

  /** The two sections that the library needs. */
  method FindSections(f: HwxFile) returns (found: bool, text: Option<(nat, nat)>, konst: Option<(nat, nat)>)
    ensures found <==> HasNeeded(Segments(f.parts.segments))
  {
    text := SectionByName(Some(f), Some(TEXT), Some(TEXT_TEXT));
    konst := SectionByName(Some(f), Some(TEXT), Some(TEXT_CONST));
    FoundIffThere(Segments(f.parts.segments), TEXT, TEXT_TEXT, text);
    FoundIffThere(Segments(f.parts.segments), TEXT, TEXT_CONST, konst);
    found := text.Some? && konst.Some?;
  }

  lemma LoadedIf(f: HwxFile, cuts: seq<nat>)
    requires Cut(f, cuts) && f.fileSize == |f.bytes| && f.header == HeaderOf(f.bytes)
    requires f.tdVersion == TdVersion(f.header.cpusubtype)
    requires Shaped(f.parts)
    ensures Loaded(f) <==> Accepts(f.bytes)
    ensures Accepts(f.bytes) <==>
      HasNeeded(Segments(f.parts.segments))
  {
    hide U32, HasSection, Segments, TdVersion;
    SectionsDecide(f.bytes, cuts);
  }

  /** `hwx_open`: all or nothing, and without a fault everything that is acceptable is accepted. */
  method Open(sys: System, path: Option<Inode>) returns (file: Option<HwxFile>)
    requires sys.Valid() && (path.Some? ==> |path.value.bytes| < 0x8000_0000_0000_0000)
    modifies sys
    ensures sys.Valid() && (old(sys.faulted) ==> sys.faulted)
    ensures file.None? ==> sys.res == old(sys.res)
    ensures file.None? ==> sys.faulted || path.None? || !path.value.regular || !Accepts(path.value.bytes)
    ensures file.Some? ==> sys.faulted == old(sys.faulted) && path.Some? && path.value.regular
    ensures file.Some? ==> file.value.bytes == path.value.bytes && Loaded(file.value)
    ensures file.Some? ==> sys.res == Gained(old(sys.res), file.value)
  {
    if path.None? {
      return None;
    }
    var handle := sys.Open();
    if handle.None? {
      return None;
    }
    var fd := handle.value;
    var stat := sys.Stat();
    if !stat || !path.value.regular {
      sys.Close(fd);
      return None;
    }
    file := OpenRegular(sys, fd, path.value.bytes);
  }

  /** The rest of `hwx_open`, once the descriptor is known to be a regular file. */
  method OpenRegular(sys: System, fd: nat, bytes: seq<byte>) returns (file: Option<HwxFile>)
    requires sys.Valid() && fd in sys.res.fds && |bytes| < 0x8000_0000_0000_0000
    modifies sys
    ensures sys.Valid() && (old(sys.faulted) ==> sys.faulted)
    ensures file.None? ==> sys.res == old(sys.res).(fds := old(sys.res.fds) - multiset{fd})
    ensures file.None? ==> sys.faulted || !Accepts(bytes)
    ensures file.Some? ==> sys.faulted == old(sys.faulted)
    ensures file.Some? ==> file.value.fd == fd && file.value.bytes == bytes && Loaded(file.value)
    ensures file.Some? ==> sys.res == old(sys.res).(blocks := old(sys.res.blocks) + Blocks(file.value))
  {
    hide System.Valid, HeaderOk, HeaderOf, Loaded, Holding, Covers, Tiles, U32, SegmentShare, ThreadShare, Accepts;
    hide TdVersion, HasNeeded;
    ghost var base := sys.res.blocks;
    RefusesHeader(bytes);
    var ok, header := ReadHeader(sys, bytes);
    if !ok {
      sys.Close(fd);
      return None;
    }
    var mem := sys.Malloc();
    if mem.None? {
      assert base + multiset{} == base;
      sys.Close(fd);
      return None;
    }
    var p;
    ghost var cuts;
    ok, p, cuts := LoadCommands(sys, bytes);
    if !ok {
      Release(sys, fd, mem.value, p, base);
      return None;
    }
    var f := HwxFile(mem.value, fd, bytes, |bytes|, header, p, TdVersion(header.cpusubtype));
    HoldingValid(sys, base + multiset{mem.value}, p);
    LoadedIf(f, cuts);
    var found, _, _ := FindSections(f);
    if !found {
      Release(sys, fd, mem.value, p, base);
      return None;
    }
    HoldingAll(sys, base, f);
    return Some(f);
  }

  lemma RefusesHeader(b: seq<byte>)
    ensures !HeaderOk(b) ==> !Accepts(b)
  {
  }

  lemma HoldingAll(sys: System, base: multiset<nat>, f: HwxFile)
    requires sys.Valid()
    requires Shaped(f.parts)
    ensures Holding(sys, base + multiset{f.mem}, f.parts) <==> sys.res.blocks == base + Blocks(f)
  {
    hide SegmentShare, ThreadShare, System.Valid;
    assert base + multiset{f.mem} + SegmentShare(f.parts) + ThreadShare(f.parts) ==
      base + (SegmentShare(f.parts) + ThreadShare(f.parts) + multiset{f.mem});
  }

  /** `hwx_close` gives back exactly what the open file holds. */
  method Close(sys: System, file: Option<HwxFile>)
    requires sys.Valid()
    requires file.Some? ==> Loaded(file.value) && file.value.fd in sys.res.fds && Blocks(file.value) <= sys.res.blocks
    modifies sys`res
    ensures sys.Valid()
    ensures file.None? ==> sys.res == old(sys.res)
    ensures file.Some? ==> sys.res == Lost(old(sys.res), file.value)
  {
    hide System.Valid, Loaded, Holding, Blocks;
    if file.None? {
      return;
    }
    var f := file.value;
    LoadedShape(f);
    HoldingAll(sys, sys.res.blocks - Blocks(f), f);
    Discard(sys, f.fd, f.mem, f.parts, sys.res.blocks - Blocks(f));
  }

  method Discard(sys: System, fd: nat, mem: nat, p: Progress, ghost base: multiset<nat>)
    requires Holding(sys, base + multiset{mem}, p) && fd in sys.res.fds
    modifies sys`res
    ensures sys.Valid() && sys.res == old(sys.res).(blocks := base, fds := old(sys.res.fds) - multiset{fd})
  {
    hide Holding, System.Valid, ThreadBlocks, SegmentBlocks, ThreadShare;
    HoldingValid(sys, base + multiset{mem}, p);
    HoldingShares(sys, base + multiset{mem}, p);
    FreeSegments(sys, p.segments, p.segmentsMem, base + multiset{mem} + ThreadShare(p));
    ThreadShareIs(p);
    assert base + multiset{mem} + ThreadShare(p) ==
           base + multiset{mem} + ThreadBlocks(p.threads, 0) + Held(p.threadsMem);
    FreeThreads(sys, p.threads, p.threadsMem, base + multiset{mem});
    sys.Close(fd);
    sys.Free(Some(mem));
  }

  lemma LoadedShape(f: HwxFile)
    requires Loaded(f)
    ensures Shaped(f.parts)
  {
  }

  /** Opening a file and closing it again leaves every resource as it was, whatever happened. */
  method OpenThenClose(sys: System, path: Option<Inode>) returns (accepted: bool)
    requires sys.Valid() && (path.Some? ==> |path.value.bytes| < 0x8000_0000_0000_0000)
    modifies sys
    ensures sys.Valid() && sys.res == old(sys.res)
    ensures accepted ==> path.Some? && path.value.regular && Accepts(path.value.bytes)
    ensures !accepted ==> sys.faulted || path.None? || !path.value.regular || !Accepts(path.value.bytes)
  {
    hide System.Valid, Loaded, Accepts, Gained, Lost, Blocks;
    ghost var before := sys.res;
    var file := Open(sys, path);
    accepted := file.Some?;
    if accepted {
      LoadedAccepts(file.value);
      CanClose(before, file.value);
    }
    Close(sys, file);
  }

  lemma LoadedAccepts(f: HwxFile)
    requires Loaded(f)
    ensures Accepts(f.bytes)
  {
  }

  /** What an open file holds can be given back. */
  lemma CanClose(r: Resources, f: HwxFile)
    ensures f.fd in Gained(r, f).fds && Blocks(f) <= Gained(r, f).blocks && Lost(Gained(r, f), f) == r
  {
    hide Blocks;
    LostGained(r, f);
  }

  lemma ThreadShareIs(p: Progress)
    ensures ThreadShare(p) == ThreadBlocks(p.threads, 0) + Held(p.threadsMem)
  {
  }

  /** `hwx_thread_state_next`: the first state of the flavor after `current`, or from the start. */
  method ThreadStateNext(file: Option<HwxFile>, flavor: u32, current: Option<nat>) returns (next: Option<nat>)
    ensures file.None? ==> next.None?
    ensures file.Some? ==> NextState(Threads(file.value.parts.threads), flavor, current, next)
  {
    if file.None? {
      return None;
    }
    var states := file.value.parts.threads;
    var start := 0;
    if current.Some? {
      if current.value >= |states| {
        return None;
      }
      start := current.value + 1;
    }
    for i := start to |states|
      invariant forall k | start <= k < i :: Threads(states)[k].flavor != flavor
    {
      if states[i].state.flavor == flavor {
        return Some(i);
      }
    }
    return None;
  }

  /** A pointer outside the states finds nothing. */
  ghost predicate NextState(states: seq<ThreadState>, flavor: u32, current: Option<nat>, next: Option<nat>) {
    var start := if current.Some? then current.value + 1 else 0;
    match next
    case None => forall k | start <= k < |states| :: states[k].flavor != flavor
    case Some(n) => IsNextState(states, flavor, start, n)
  }

  ghost predicate IsNextState(states: seq<ThreadState>, flavor: u32, start: nat, n: nat) {
    start <= n < |states| && states[n].flavor == flavor && forall k | start <= k < n :: states[k].flavor != flavor
  }

  // ----- Reading from an open file -----

  const WRAP := 0x1_0000_0000_0000_0000

  /** A segment, or a section, is one of those of a file that is open. */
  ghost predicate HasSegment(f: HwxFile, s: Segment) {
    Loaded(f) && s in Segments(f.parts.segments)
  }

  ghost predicate HasSectionIn(f: HwxFile, s: Section) {
    Loaded(f) && exists i | 0 <= i < |f.parts.segments| :: s in Segments(f.parts.segments)[i].sections
  }

  /** `length` bytes at `offset` of a part of the file that starts at `start` and has `size` bytes.
      The sum of the offsets is taken in 64 bits, and checked once more against the whole file. */
  method ReadPart(sys: System, file: Option<HwxFile>, start: u64, length: u64, offset: u64, buffer: array?<byte>,
                  size: u64)
    returns (ok: bool)
    requires file.Some? ==> file.value.fileSize == |file.value.bytes|
    requires buffer != null ==> size <= buffer.Length
    modifies sys`interrupts, sys`faulted, buffer
    ensures old(sys.faulted) ==> sys.faulted
    ensures ok ==> sys.faulted == old(sys.faulted)
    ensures ok && size > 0 ==> buffer != null && file.Some? && offset + size <= length
    ensures ok && size > 0 ==> Copied(file.value.bytes, (start + offset) % WRAP, buffer[..size])
    ensures buffer != null ==> buffer[size..] == old(buffer[size..])
    ensures file.Some? && start + length <= file.value.fileSize && !sys.faulted ==>
      (ok <==> size == 0 || (buffer != null && offset + size <= length))
    ensures size == 0 ==> ok
    ensures offset + size > length && buffer != null ==> buffer[..] == old(buffer[..])
  {
    if buffer == null && size > 0 {
      return false;
    }
    if size == 0 {
      return true;
    }
    if offset > length || size > length - offset {
      return false;
    }
    var fileOffset := (start + offset) % WRAP;
    if file.None? || !WithinFile(file.value.fileSize, fileOffset, size) {
      if file.Some? {
        NeverWraps(start, length, offset, size, file.value.fileSize);
      }
      return false;
    }
    ok := PreadExact(sys, file.value.bytes, buffer, size, fileOffset);
  }

  predicate Copied(bytes: seq<byte>, from: nat, data: seq<byte>) {
    from + |data| <= |bytes| && data == bytes[from..from + |data|]
  }

  /** What lies inside a part that lies inside the file lies inside the file, without wrap-around. */
  lemma NeverWraps(start: u64, length: u64, offset: u64, size: u64, fileSize: u64)
    requires offset + size <= length
    ensures start + length <= fileSize ==>
      (start + offset) % WRAP == start + offset && start + offset + size <= fileSize
  {
    if start + length <= fileSize {
      assert start + offset < WRAP;
    }
  }

  /** `hwx_segment_read`. */
  method SegmentRead(sys: System, file: Option<HwxFile>, segment: Option<Segment>, offset: u64, buffer: array?<byte>,
                     size: u64)
    returns (ok: bool)
    requires file.Some? ==> file.value.fileSize == |file.value.bytes|
    requires buffer != null ==> size <= buffer.Length
    modifies sys`interrupts, sys`faulted, buffer
    ensures old(sys.faulted) ==> sys.faulted
    ensures ok ==> sys.faulted == old(sys.faulted) && segment.Some?
    ensures buffer != null ==> buffer[size..] == old(buffer[size..])
    ensures file.Some? && segment.Some? && HasSegment(file.value, segment.value) && !sys.faulted ==>
      (ok <==> size == 0 || (buffer != null && offset + size <= segment.value.filesize))
    ensures file.Some? && segment.Some? && HasSegment(file.value, segment.value) && ok && size > 0 ==>
      buffer != null && Copied(file.value.bytes, segment.value.fileoff + offset, buffer[..size])
  {
    hide Loaded, InFile;
    if segment.None? {
      return false;
    }
    if file.Some? && HasSegment(file.value, segment.value) {
      SegmentInFile(file.value, segment.value);
    }
    ok := ReadPart(sys, file, segment.value.fileoff, segment.value.filesize, offset, buffer, size);
    if file.Some? && HasSegment(file.value, segment.value) && ok && size > 0 {
      NeverWraps(segment.value.fileoff, segment.value.filesize, offset, size, file.value.fileSize);
    }
  }

  /** `hwx_section_read`. */
  method SectionRead(sys: System, file: Option<HwxFile>, section: Option<Section>, offset: u64, buffer: array?<byte>,
                     size: u64)
    returns (ok: bool)
    requires file.Some? ==> file.value.fileSize == |file.value.bytes|
    requires buffer != null ==> size <= buffer.Length
    modifies sys`interrupts, sys`faulted, buffer
    ensures old(sys.faulted) ==> sys.faulted
    ensures ok ==> sys.faulted == old(sys.faulted) && section.Some?
    ensures buffer != null ==> buffer[size..] == old(buffer[size..])
    ensures file.Some? && section.Some? && HasSectionIn(file.value, section.value) && !sys.faulted ==>
      (ok <==> size == 0 || (buffer != null && offset + size <= section.value.size))
    ensures file.Some? && section.Some? && HasSectionIn(file.value, section.value) && ok && size > 0 ==>
      buffer != null && Copied(file.value.bytes, section.value.offset + offset, buffer[..size])
  {
    hide Loaded, InFile;
    if section.None? {
      return false;
    }
    if file.Some? && HasSectionIn(file.value, section.value) {
      SectionLiesInFile(file.value, section.value);
    }
    ok := ReadPart(sys, file, section.value.offset, section.value.size, offset, buffer, size);
    if file.Some? && HasSectionIn(file.value, section.value) && ok && size > 0 {
      NeverWraps(section.value.offset, section.value.size, offset, size, file.value.fileSize);
    }
  }

  lemma SegmentInFile(f: HwxFile, s: Segment)
    requires HasSegment(f, s)
    ensures InFile(s, f.fileSize) && s.fileoff + s.filesize <= f.fileSize
  {
    hide InFile, Accepts, Segments, Threads;
    var cuts :| Cut(f, cuts);
    var i :| 0 <= i < |Segments(f.parts.segments)| && Segments(f.parts.segments)[i] == s;
    SegmentsInFile(f.bytes, cuts, i);
    InFileIs(s, f.fileSize);
  }

  lemma InFileIs(s: Segment, fileSize: nat)
    requires InFile(s, fileSize)
    ensures s.fileoff + s.filesize <= fileSize
    ensures forall x | x in s.sections :: SectionInFile(x, fileSize)
  {
  }

  lemma SectionLiesInFile(f: HwxFile, s: Section)
    requires HasSectionIn(f, s)
    ensures s.size != 0 ==> s.offset + s.size <= f.fileSize
  {
    hide InFile, Loaded;
    var i :| 0 <= i < |f.parts.segments| && s in Segments(f.parts.segments)[i].sections;
    SegmentInFile(f, Segments(f.parts.segments)[i]);
    InFileIs(Segments(f.parts.segments)[i], f.fileSize);
  }
}
