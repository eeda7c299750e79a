/** The bytes of an HWX file, written down in the order of the structures that `src/libane/hwx.c`
    declares, and what the loader makes of them: every value comes back from its own place. */
module HwxEncoding {
  import opened Words
  import opened HwxFormat
  import opened HwxCommands
  import opened Hwx

  // ----- Values as bytes -----

  /** Little-endian. */
  function Le32(x: u32): (r: seq<byte>)
    ensures |r| == 4
  {
    [x % 0x100, x / 0x100 % 0x100, x / 0x1_0000 % 0x100, x / 0x100_0000]
  }

  function Fields(ws: seq<u32>): (r: seq<byte>)
    ensures |r| == 4 * |ws|
  {
    if ws == [] then [] else Le32(ws[0]) + Fields(ws[1..])
  }

  /** The two halves of a 64-bit field, in their order. */
  function Lo(x: u64): u32 { x % 0x1_0000_0000 }
  function Hi(x: u64): u32 { x / 0x1_0000_0000 }

  predicate NameOk(name: seq<byte>) {
    |name| <= 16 && 0 !in name
  }

  function NameBytes(name: seq<byte>): (r: seq<byte>)
    requires NameOk(name)
    ensures |r| == 16
  {
    name + seq(16 - |name|, _ => 0)
  }

  // ----- Structures as bytes -----

  /** `struct MachHeader64`. */
  function HeaderBytes(h: Header): (r: seq<byte>)
    ensures |r| == 32
  {
    Fields([h.magic, h.cputype, h.cpusubtype, h.filetype, h.ncmds, h.sizeofcmds, h.flags, h.reserved])
  }

  predicate SectionNamed(s: Section) {
    NameOk(s.sectionName) && NameOk(s.segmentName)
  }

  /** `struct Section64`. */
  function SectionBytes(s: Section): (r: seq<byte>)
    requires SectionNamed(s)
    ensures |r| == 80
  {
    NameBytes(s.sectionName) + (NameBytes(s.segmentName) + Fields(
      [Lo(s.addr), Hi(s.addr), Lo(s.size), Hi(s.size), s.offset, s.align, s.reloff, s.nreloc, s.flags,
       s.reserved1, s.reserved2, s.reserved3]))
  }

  predicate AllNamed(ss: seq<Section>) {
    forall i | 0 <= i < |ss| :: SectionNamed(ss[i])
  }

  function SectionsBytes(ss: seq<Section>): (r: seq<byte>)
    requires AllNamed(ss)
    ensures |r| == 80 * |ss|
  {
    if ss == [] then [] else SectionBytes(ss[0]) + SectionsBytes(ss[1..])
  }

  /** One record of a thread command. */
  function RecordBytes(t: ThreadState): seq<byte> {
    Fields([t.flavor, t.count]) + t.data
  }

  function RecordsBytes(ts: seq<ThreadState>): seq<byte> {
    if ts == [] then [] else RecordBytes(ts[0]) + RecordsBytes(ts[1..])
  }

  /** A load command; `tail` is what the command holds beyond what it declares. */
  datatype Command =
    | SegmentCommand(segment: Segment, tail: seq<byte>)
    | ThreadCommand(records: seq<ThreadState>, tail: seq<byte>)
    | OtherCommand(kind: u32, tail: seq<byte>)

  /** Only the last record may be cut short, by the end of its command. */
  predicate RecordsOk(ts: seq<ThreadState>, tail: seq<byte>) {
    |tail| < 8 && forall i | 0 <= i < |ts| :: RecordOk(ts[i], i == |ts| - 1 && tail == [])
  }

  predicate RecordOk(t: ThreadState, last: bool) {
    |t.data| == t.count * 4 || (last && |t.data| < t.count * 4)
  }

  predicate Encodable(c: Command) {
    match c
    case SegmentCommand(s, tail) => NameOk(s.name) && AllNamed(s.sections) && |s.sections| < 0x1_0000_0000
    case ThreadCommand(ts, tail) => RecordsOk(ts, tail) && |ts| > 0
    case OtherCommand(kind, _) => kind != 0x19 && kind != 0x04
  }

  function Kind(c: Command): u32 {
    match c
    case SegmentCommand(_, _) => 0x19
    case ThreadCommand(_, _) => 0x04
    case OtherCommand(kind, _) => kind
  }

  /** What follows the two words that every command starts with; of a segment, the rest of
      `struct SegmentCommand64` and the sections. */
  function Body(c: Command): seq<byte>
    requires Encodable(c)
  {
    match c
    case SegmentCommand(s, tail) => NameBytes(s.name) + (SegmentFields(s) + (SectionsBytes(s.sections) + tail))
    case ThreadCommand(ts, tail) => RecordsBytes(ts) + tail
    case OtherCommand(_, tail) => tail
  }

  function SegmentFields(s: Segment): (r: seq<byte>)
    requires |s.sections| < 0x1_0000_0000
    ensures |r| == 48
  {
    Fields([Lo(s.vmaddr), Hi(s.vmaddr), Lo(s.vmsize), Hi(s.vmsize), Lo(s.fileoff), Hi(s.fileoff),
            Lo(s.filesize), Hi(s.filesize), s.maxprot, s.initprot, |s.sections|, s.flags])
  }

  predicate Sized(c: Command) {
    Encodable(c) && 8 + |Body(c)| < 0x1_0000_0000
  }

  function CommandBytes(c: Command): (r: seq<byte>)
    requires Sized(c)
  {
    Fields([Kind(c), 8 + |Body(c)|]) + Body(c)
  }

  predicate AllSized(cs: seq<Command>) {
    forall i | 0 <= i < |cs| :: Sized(cs[i])
  }

  function CommandsBytes(cs: seq<Command>): seq<byte>
    requires AllSized(cs)
  {
    if cs == [] then [] else CommandsBytes(cs[..|cs| - 1]) + CommandBytes(cs[|cs| - 1])
  }

  // ----- What is declared -----

  function DeclaredSegments(cs: seq<Command>): seq<Segment> {
    if cs == [] then []
    else
      var c := cs[|cs| - 1];
      DeclaredSegments(cs[..|cs| - 1]) + if c.SegmentCommand? then [c.segment] else []
  }

  function DeclaredThreads(cs: seq<Command>): seq<ThreadState> {
    if cs == [] then []
    else
      var c := cs[|cs| - 1];
      DeclaredThreads(cs[..|cs| - 1]) + if c.ThreadCommand? then c.records else []
  }

  // ----- Finding the bytes again -----

  /** `part` stands in `b` at offset `o`. */
  predicate At(b: seq<byte>, o: nat, part: seq<byte>) {
    o + |part| <= |b| && b[o..o + |part|] == part
  }

  lemma AtParts(b: seq<byte>, o: nat, p: seq<byte>, q: seq<byte>)
    requires At(b, o, p + q)
    ensures At(b, o, p) && At(b, o + |p|, q)
  {
    assert b[o..o + |p|] == b[o..o + |p + q|][..|p|];
    assert b[o + |p|..o + |p| + |q|] == b[o..o + |p + q|][|p|..];
  }

  lemma AtSlice(b: seq<byte>, lo: nat, hi: nat, o: nat, part: seq<byte>)
    requires At(b, lo + o, part) && lo + o + |part| <= hi <= |b|
    ensures At(b[lo..hi], o, part)
  {
    var whole := b[lo..hi];
    forall k | 0 <= k < |part| ensures whole[o..o + |part|][k] == part[k] {
      assert whole[o + k] == b[lo + o..lo + o + |part|][k];
    }
  }

  lemma Le32At(b: seq<byte>, o: nat, x: u32)
    requires At(b, o, Le32(x))
    ensures U32(b, o) == x
  {
    var part := b[o..o + 4];
    assert part == Le32(x);
    assert part[0] == b[o] && part[1] == b[o + 1] && part[2] == b[o + 2] && part[3] == b[o + 3];
    hide At;
    Recombine(x);
  }

  lemma Recombine(x: u32)
    ensures var l := Le32(x); l[0] as int + 0x100 * l[1] as int + 0x1_0000 * l[2] as int + 0x100_0000 * l[3] as int == x
  {
    var l := Le32(x);
    var y := x / 0x100;
    assert x == 0x100 * y + l[0] as int;
    var z := y / 0x100;
    assert y == 0x100 * z + l[1] as int && z == x / 0x1_0000;
    assert z == 0x100 * l[3] as int + l[2] as int;
  }

  lemma {:induction false} FieldAt(b: seq<byte>, o: nat, ws: seq<u32>, i: nat)
    requires At(b, o, Fields(ws)) && i < |ws|
    ensures o + 4 * i + 4 <= |b| && U32(b, o + 4 * i) == ws[i]
    decreases i
  {
    hide U32, Le32;
    AtParts(b, o, Le32(ws[0]), Fields(ws[1..]));
    if i == 0 {
      Le32At(b, o, ws[0]);
    } else {
      FieldAt(b, o + 4, ws[1..], i - 1);
    }
  }

  lemma NameAt(b: seq<byte>, o: nat, name: seq<byte>)
    requires NameOk(name) && At(b, o, NameBytes(name))
    ensures o + 16 <= |b| && Trim(b[o..o + 16]) == name
  {
    hide Trim;
    var bytes := b[o..o + 16];
    assert bytes == NameBytes(name);
    assert bytes[..|name|] == name;
    TrimIs(bytes, |name|);
  }

  // ----- Decoding undoes encoding -----

  /** `struct MachHeader64` read back. */
  lemma HeaderDecodes(b: seq<byte>, h: Header)
    requires At(b, 0, HeaderBytes(h))
    ensures |b| >= 32 && HeaderOf(b) == h
  {
    hide U32, Le32, At, Fields;
    var ws := [h.magic, h.cputype, h.cpusubtype, h.filetype, h.ncmds, h.sizeofcmds, h.flags, h.reserved];
    forall i: nat | i < 8 ensures 4 * i + 4 <= |b| && U32(b, 4 * i) == ws[i] {
      FieldAt(b, 0, ws, i);
    }
    assert 4 * 7 + 4 <= |b| && U32(b, 4 * 0) == ws[0] && U32(b, 4 * 1) == ws[1] && U32(b, 4 * 2) == ws[2];
    assert U32(b, 4 * 3) == ws[3] && U32(b, 4 * 4) == ws[4] && U32(b, 4 * 5) == ws[5];
    assert U32(b, 4 * 6) == ws[6] && U32(b, 4 * 7) == ws[7];
  }

  /** A 64-bit field read back from two neighbouring words. */
  lemma LongAt(b: seq<byte>, o: nat, ws: seq<u32>, i: nat, x: u64)
    requires At(b, o, Fields(ws)) && i + 1 < |ws| && ws[i] == Lo(x) && ws[i + 1] == Hi(x)
    ensures o + 4 * i + 8 <= |b| && U64(b, o + 4 * i) == x
  {
    hide U32, Le32, At, Fields;
    FieldAt(b, o, ws, i);
    FieldAt(b, o, ws, i + 1);
  }

  /** `struct Section64` read back, wherever it stands. */
  lemma SectionDecodes(b: seq<byte>, o: nat, s: Section)
    requires SectionNamed(s) && At(b, o, SectionBytes(s))
    ensures o + 80 <= |b| && SectionAt(b, o) == s
  {
    hide U32, U64, Le32, At, Fields, Trim, NameBytes, NameOk, Lo, Hi;
    var ws := [Lo(s.addr), Hi(s.addr), Lo(s.size), Hi(s.size), s.offset, s.align, s.reloff, s.nreloc, s.flags,
               s.reserved1, s.reserved2, s.reserved3];
    AtParts(b, o, NameBytes(s.sectionName), NameBytes(s.segmentName) + Fields(ws));
    AtParts(b, o + 16, NameBytes(s.segmentName), Fields(ws));
    NameAt(b, o, s.sectionName);
    NameAt(b, o + 16, s.segmentName);
    LongAt(b, o + 32, ws, 0, s.addr);
    LongAt(b, o + 32, ws, 2, s.size);
    FieldAt(b, o + 32, ws, 4);
    FieldAt(b, o + 32, ws, 5);
    FieldAt(b, o + 32, ws, 6);
    FieldAt(b, o + 32, ws, 7);
    FieldAt(b, o + 32, ws, 8);
    FieldAt(b, o + 32, ws, 9);
    FieldAt(b, o + 32, ws, 10);
    FieldAt(b, o + 32, ws, 11);
  }

  lemma {:induction false} SectionIsAt(b: seq<byte>, o: nat, ss: seq<Section>, i: nat)
    requires AllNamed(ss) && At(b, o, SectionsBytes(ss)) && i < |ss|
    ensures At(b, o + 80 * i, SectionBytes(ss[i]))
    decreases i
  {
    hide SectionBytes, At, SectionNamed;
    AtParts(b, o, SectionBytes(ss[0]), SectionsBytes(ss[1..]));
    if i > 0 {
      SectionIsAt(b, o + 80, ss[1..], i - 1);
    }
  }

  /** A whole segment command read back. */
  lemma SegmentDecodes(cmd: seq<byte>, c: Command)
    requires c.SegmentCommand? && Sized(c) && cmd == CommandBytes(c)
    ensures HoldsSections(cmd) && SegmentOf(cmd) == c.segment
  {
    hide U32, U64, Le32, At, Fields, Trim, NameBytes, NameOk, Lo, Hi, SectionsBytes, AllNamed, SectionAt, SectionNamed;
    var s, tail := c.segment, c.tail;
    var ws := [Lo(s.vmaddr), Hi(s.vmaddr), Lo(s.vmsize), Hi(s.vmsize), Lo(s.fileoff), Hi(s.fileoff),
               Lo(s.filesize), Hi(s.filesize), s.maxprot, s.initprot, |s.sections|, s.flags];
    AtAll(cmd);
    AtParts(cmd, 0, Fields([Kind(c), 8 + |Body(c)|]), Body(c));
    AtParts(cmd, 8, NameBytes(s.name), SegmentFields(s) + (SectionsBytes(s.sections) + tail));
    AtParts(cmd, 24, SegmentFields(s), SectionsBytes(s.sections) + tail);
    AtParts(cmd, 72, SectionsBytes(s.sections), tail);
    NameAt(cmd, 8, s.name);
    LongAt(cmd, 24, ws, 0, s.vmaddr);
    LongAt(cmd, 24, ws, 2, s.vmsize);
    LongAt(cmd, 24, ws, 4, s.fileoff);
    LongAt(cmd, 24, ws, 6, s.filesize);
    FieldAt(cmd, 24, ws, 8);
    FieldAt(cmd, 24, ws, 9);
    FieldAt(cmd, 24, ws, 10);
    FieldAt(cmd, 24, ws, 11);
    assert SectionCount(cmd) == |s.sections|;
    forall i: nat | i < |s.sections| ensures SectionAt(cmd, 72 + i * 80) == s.sections[i] {
      SectionsFit(cmd, i);
      OneSection(cmd, s.sections, i);
    }
    assert SectionsOf(cmd, SectionCount(cmd)) == s.sections;
  }

  lemma AtAll(b: seq<byte>)
    ensures At(b, 0, b)
  {
  }

  lemma SectionsFit(cmd: seq<byte>, i: nat)
    requires HoldsSections(cmd) && i < SectionCount(cmd)
    ensures 72 + i * 80 + 80 <= |cmd|
  {
    SectionFits(cmd, i);
  }

  lemma OneSection(b: seq<byte>, ss: seq<Section>, i: nat)
    requires AllNamed(ss) && At(b, 72, SectionsBytes(ss)) && i < |ss|
    ensures 72 + i * 80 + 80 <= |b| && SectionAt(b, 72 + i * 80) == ss[i]
  {
    hide At, SectionBytes, SectionsBytes, SectionAt;
    SectionIsAt(b, 72, ss, i);
    SectionDecodes(b, 72 + i * 80, ss[i]);
  }

  /** The records of a thread command read back. */
  lemma {:induction false} RecordsDecode(cmd: seq<byte>, o: nat, ts: seq<ThreadState>, tail: seq<byte>)
    requires RecordsOk(ts, tail) && At(cmd, o, RecordsBytes(ts) + tail)
    requires o + |RecordsBytes(ts) + tail| == |cmd|
    ensures Records(cmd, o) == ts
    decreases |ts|
  {
    hide U32, Le32, At, Fields;
    if ts != [] {
      var t, rest := ts[0], RecordsBytes(ts[1..]);
      var ws := [t.flavor, t.count];
      assert RecordsBytes(ts) + tail == Fields(ws) + (t.data + (rest + tail));
      AtParts(cmd, o, Fields(ws), t.data + (rest + tail));
      AtParts(cmd, o + 8, t.data, rest + tail);
      FieldAt(cmd, o, ws, 0);
      FieldAt(cmd, o, ws, 1);
      assert RecordOk(t, |ts| == 1 && tail == []);
      RecordsOkRest(ts, tail);
      BlobSizeIs(cmd, o);
      assert BlobSize(cmd, o) == |t.data|;
      AtIs(cmd, o + 8, t.data);
      RecordsNext(cmd, o);
      RecordsDecode(cmd, o + 8 + |t.data|, ts[1..], tail);
    } else {
      RecordsEnd(cmd, o);
    }
  }

  lemma AtIs(b: seq<byte>, o: nat, part: seq<byte>)
    requires At(b, o, part)
    ensures o + |part| <= |b| && b[o..o + |part|] == part
  {
  }

  lemma RecordsOkRest(ts: seq<ThreadState>, tail: seq<byte>)
    requires RecordsOk(ts, tail) && ts != []
    ensures RecordsOk(ts[1..], tail)
  {
    forall i | 0 <= i < |ts| - 1 ensures RecordOk(ts[1..][i], i == |ts| - 2 && tail == []) {
      assert RecordOk(ts[i + 1], i + 1 == |ts| - 1 && tail == []);
    }
  }

  /** Segments and nonempty sections lie in a file of this size. */
  predicate Fitting(c: Command, fileSize: nat) {
    c.SegmentCommand? ==> InFile(c.segment, fileSize)
  }

  /** The bytes from `lo` to `hi` are a well-formed command that declares what `c` does. */
  predicate Declares(b: seq<byte>, lo: nat, hi: nat, c: Command) {
    CommandOk(b, lo, hi) &&
    SegmentsIn(b, lo, hi) == (if c.SegmentCommand? then [c.segment] else []) &&
    ThreadsIn(b, lo, hi) == (if c.ThreadCommand? then c.records else [])
  }

  lemma CommandDecodes(b: seq<byte>, lo: nat, c: Command)
    requires Sized(c) && At(b, lo, CommandBytes(c)) && Fitting(c, |b|)
    ensures Declares(b, lo, lo + |CommandBytes(c)|, c)
  {
    hide U32, Le32, At, Fields, Body, InFile, SegmentOf, HoldsSections, Records, Encodable;
    var ws, hi := [Kind(c), 8 + |Body(c)|], lo + |CommandBytes(c)|;
    AtParts(b, lo, Fields(ws), Body(c));
    FieldAt(b, lo, ws, 0);
    FieldAt(b, lo, ws, 1);
    AtIs(b, lo, CommandBytes(c));
    KindsDiffer(c);
    if c.SegmentCommand? {
      SegmentDecodes(b[lo..hi], c);
    } else if c.ThreadCommand? {
      ThreadDecodes(b[lo..hi], c);
    }
  }

  lemma KindsDiffer(c: Command)
    requires Encodable(c)
    ensures (Kind(c) == LC_SEGMENT_64 <==> c.SegmentCommand?) && (Kind(c) == LC_THREAD <==> c.ThreadCommand?)
  {
  }

  lemma ThreadDecodes(cmd: seq<byte>, c: Command)
    requires c.ThreadCommand? && Sized(c) && cmd == CommandBytes(c)
    ensures |cmd| >= 16 && Records(cmd, 8) == c.records
  {
    hide U32, Le32, At, Fields, RecordsOk, Records;
    AtAll(cmd);
    AtParts(cmd, 0, Fields([Kind(c), 8 + |Body(c)|]), Body(c));
    RecordsDecode(cmd, 8, c.records, c.tail);
  }

  lemma DeclaresIs(b: seq<byte>, lo: nat, hi: nat, c: Command)
    requires Declares(b, lo, hi, c)
    ensures CommandOk(b, lo, hi)
    ensures SegmentsIn(b, lo, hi) == if c.SegmentCommand? then [c.segment] else []
    ensures ThreadsIn(b, lo, hi) == if c.ThreadCommand? then c.records else []
  {
  }

  predicate AllFitting(cs: seq<Command>, fileSize: nat) {
    forall i | 0 <= i < |cs| :: Fitting(cs[i], fileSize)
  }

  /** The commands of a file, found one after the other. */
  lemma {:induction false} CommandsDecode(b: seq<byte>, cs: seq<Command>) returns (cuts: seq<nat>)
    requires AllSized(cs) && AllFitting(cs, |b|) && At(b, 32, CommandsBytes(cs))
    ensures Chain(b, cuts) && |cuts| == |cs| + 1 && cuts[|cs|] == 32 + |CommandsBytes(cs)|
    ensures SegmentsOf(b, cuts) == DeclaredSegments(cs) && ThreadsOf(b, cuts) == DeclaredThreads(cs)
  {
    hide CommandBytes, Sized, Fitting, At, CommandOk, SegmentsIn, ThreadsIn, Declares;
    if cs == [] {
      cuts := [32];
    } else {
      var n := |cs| - 1;
      AtParts(b, 32, CommandsBytes(cs[..n]), CommandBytes(cs[n]));
      cuts := CommandsDecode(b, cs[..n]);
      CommandDecodes(b, cuts[n], cs[n]);
      DeclaresIs(b, cuts[n], cuts[n] + |CommandBytes(cs[n])|, cs[n]);
      ChainExtend(b, cuts, cuts[n] + |CommandBytes(cs[n])|);
      cuts := cuts + [cuts[n] + |CommandBytes(cs[n])|];
    }
  }

  /** `b` is a file with this header and these commands, and any contents after them. */
  predicate Encodes(b: seq<byte>, h: Header, cs: seq<Command>) {
    AllSized(cs) && AllFitting(cs, |b|) && At(b, 0, HeaderBytes(h) + CommandsBytes(cs)) &&
    h.magic == 0xBEEF_FACE && h.ncmds == |cs| && h.sizeofcmds == |CommandsBytes(cs)|
  }

  /** Decoding a file gives back the header, the segments and the thread states that were encoded,
      and the file is acceptable exactly if the two sections are among them. */
  lemma FileDecodes(b: seq<byte>, h: Header, cs: seq<Command>) returns (cuts: seq<nat>)
    requires Encodes(b, h, cs)
    ensures HeaderOk(b) && HeaderOf(b) == h && Tiles(b, cuts)
    ensures SegmentsOf(b, cuts) == DeclaredSegments(cs) && ThreadsOf(b, cuts) == DeclaredThreads(cs)
    ensures Accepts(b) <==> HasNeeded(DeclaredSegments(cs))
  {
    hide U32, At, HeaderBytes, CommandsBytes, AllSized, AllFitting, HasNeeded, SegmentsOf, ThreadsOf, Chain;
    hide DeclaredSegments, DeclaredThreads;
    AtParts(b, 0, HeaderBytes(h), CommandsBytes(cs));
    HeaderDecodes(b, h);
    AtIs(b, 32, CommandsBytes(cs));
    cuts := CommandsDecode(b, cs);
    SectionsDecide(b, cuts);
  }

  /** What an open file holds is what was encoded in it, field by field. */
  lemma OpenedIsEncoded(f: HwxFile, h: Header, cs: seq<Command>)
    requires Loaded(f) && Encodes(f.bytes, h, cs)
    ensures f.header == h
    ensures Segments(f.parts.segments) == DeclaredSegments(cs)
    ensures Threads(f.parts.threads) == DeclaredThreads(cs)
  {
    hide Encodes, DeclaredSegments, DeclaredThreads, Segments, Threads, SegmentsOf, ThreadsOf, HeaderOf, Accepts, Chain;
    hide U32, TdVersion;
    var cuts := FileDecodes(f.bytes, h, cs);
    var mine :| Cut(f, mine);
    TilesUnique(f.bytes, cuts, mine);
  }

  /** An open file has the declared number of commands in the declared number of bytes. */
  lemma OpenedTiles(f: HwxFile) returns (cuts: seq<nat>)
    requires Loaded(f)
    ensures Chain(f.bytes, cuts) && |cuts| == f.header.ncmds + 1
    ensures cuts[0] == 32 && cuts[f.header.ncmds] == 32 + f.header.sizeofcmds <= |f.bytes|
    ensures Segments(f.parts.segments) == SegmentsOf(f.bytes, cuts)
    ensures Threads(f.parts.threads) == ThreadsOf(f.bytes, cuts)
  {
    hide Accepts, TdVersion, U32, SegmentsOf, ThreadsOf, Segments, Threads, CommandOk;
    var mine :| Cut(f, mine);
    cuts := mine;
  }

  /** The versions of the named processors: M9, H11, T0, H12, H13, H14 and H15, and no other. */
  lemma OpenedVersion(f: HwxFile)
    requires Loaded(f)
    ensures var cpu, version := f.header.cpusubtype % 256, f.tdVersion;
      (version == 5 <==> cpu == 0 || cpu == 1) && (version == 4 <==> cpu == 2) && (version == 6 <==> cpu == 3) &&
      (version == 7 <==> cpu == 4) && (version == 11 <==> cpu == 5) && (version == 8 <==> cpu == 6) &&
      (version == 0 <==> cpu > 6)
  {
    hide Accepts, HeaderOf, Cut;
  }

  /** The names that are looked up. */
  lemma Names()
    ensures |TEXT| == |"__TEXT"| && forall i | 0 <= i < |TEXT| :: TEXT[i] == "__TEXT"[i] as int
    ensures |TEXT_TEXT| == |"__text"| && forall i | 0 <= i < |TEXT_TEXT| :: TEXT_TEXT[i] == "__text"[i] as int
    ensures |TEXT_CONST| == |"__const"| && forall i | 0 <= i < |TEXT_CONST| :: TEXT_CONST[i] == "__const"[i] as int
  {
  }

  /** For example, a file that is only its header and one segment with the two sections, both
      empty, is acceptable. */
  lemma SmallestFile() returns (b: seq<byte>)
    ensures |b| == 264 && Accepts(b)
  {
    hide Fields, U32, Accepts, CommandBytes, HeaderBytes, Sized, Fitting, HasNeeded, CommandsBytes, DeclaredSegments;
    var c := SmallestCommand();
    var cs, h := [c], Header(0xBEEF_FACE, 0, 4, 0, 1, 232, 0, 0);
    OneCommand(c);
    b := HeaderBytes(h) + CommandsBytes(cs);
    AtAll(b);
    var _ := FileDecodes(b, h, cs);
  }

  lemma SmallestCommand() returns (c: Command)
    ensures Sized(c) && |CommandBytes(c)| == 232 && Fitting(c, 264) && c.SegmentCommand? && HasNeeded([c.segment])
  {
    hide Fields, SectionsBytes, NameBytes, HasNeeded, NameOk, Le32;
    var text := Section(TEXT, TEXT_TEXT, 0, 0, 0, 0, 0, 0, 0, 0, 0, 0);
    var konst := Section(TEXT, TEXT_CONST, 0, 0, 0, 0, 0, 0, 0, 0, 0, 0);
    var segment := Segment(TEXT, 0, 0, 0, 0, 0, 0, 0, [text, konst]);
    c := SegmentCommand(segment, []);
    NamesOk();
    NeededThere(segment);
  }

  lemma NamesOk()
    ensures NameOk(TEXT) && NameOk(TEXT_TEXT) && NameOk(TEXT_CONST)
  {
  }

  lemma NeededThere(s: Segment)
    requires s.name == TEXT && |s.sections| == 2
    requires s.sections[0].sectionName == TEXT_TEXT && s.sections[1].sectionName == TEXT_CONST
    ensures HasNeeded([s])
  {
    assert IsNamed([s], TEXT, TEXT_TEXT, 0, 0) && IsNamed([s], TEXT, TEXT_CONST, 0, 1);
  }

  lemma OneCommand(c: Command)
    requires Sized(c)
    ensures AllSized([c]) && CommandsBytes([c]) == CommandBytes(c)
    ensures DeclaredSegments([c]) == if c.SegmentCommand? then [c.segment] else []
  {
    hide CommandBytes, Sized;
    assert [c][..0] == [];
  }
}
