/** The HWX file format as `src/libane/hwx.c` reads it: what is declared in a file, and which
    files are acceptable, without reference to how they are read. */
module HwxFormat {
  import opened Words

  const HEADER_SIZE := 32
  const COMMAND_SIZE := 8
  const SEGMENT_SIZE := 72
  const SECTION_SIZE := 80

  const MAGIC := 0xBEEF_FACE
  const LC_SEGMENT_64 := 0x19
  const LC_THREAD := 0x04

  function U32(b: seq<byte>, o: nat): u32
    requires o + 4 <= |b|
  {
    b[o] as int + 0x100 * b[o + 1] as int + 0x1_0000 * b[o + 2] as int + 0x100_0000 * b[o + 3] as int
  }

  function U64(b: seq<byte>, o: nat): u64
    requires o + 8 <= |b|
  {
    U32(b, o) + 0x1_0000_0000 * U32(b, o + 4)
  }

  /** The bytes before the first NUL. */
  function Trim(b: seq<byte>): (r: seq<byte>)
    ensures |r| <= |b| && r == b[..|r|] && 0 !in r
    ensures |r| < |b| ==> b[|r|] == 0
  {
    if b == [] || b[0] == 0 then [] else [b[0]] + Trim(b[1..])
  }

  /** The names that the library looks for. */
  const TEXT: seq<byte> := [0x5F, 0x5F, 0x54, 0x45, 0x58, 0x54]             // "__TEXT"
  const TEXT_TEXT: seq<byte> := [0x5F, 0x5F, 0x74, 0x65, 0x78, 0x74]        // "__text"
  const TEXT_CONST: seq<byte> := [0x5F, 0x5F, 0x63, 0x6F, 0x6E, 0x73, 0x74] // "__const"

  datatype Section = Section(
    segmentName: seq<byte>, sectionName: seq<byte>, addr: u64, size: u64, offset: u32, align: u32,
    reloff: u32, nreloc: u32, flags: u32, reserved1: u32, reserved2: u32, reserved3: u32)

  datatype Segment = Segment(
    name: seq<byte>, vmaddr: u64, vmsize: u64, fileoff: u64, filesize: u64,
    maxprot: u32, initprot: u32, flags: u32, sections: seq<Section>)

  /** One record of a thread command; `data` is cut short by the end of the command. */
  datatype ThreadState = ThreadState(flavor: u32, count: u32, data: seq<byte>)

  // ----- One command -----

  function SectionAt(cmd: seq<byte>, o: nat): Section
    requires o + SECTION_SIZE <= |cmd|
  {
    Section(Trim(cmd[o + 16..o + 32]), Trim(cmd[o..o + 16]), U64(cmd, o + 32), U64(cmd, o + 40),
            U32(cmd, o + 48), U32(cmd, o + 52), U32(cmd, o + 56), U32(cmd, o + 60), U32(cmd, o + 64),
            U32(cmd, o + 68), U32(cmd, o + 72), U32(cmd, o + 76))
  }

  function SectionCount(cmd: seq<byte>): u32
    requires SEGMENT_SIZE <= |cmd|
  {
    U32(cmd, 64)
  }

  /** The command is long enough for the sections it declares. */
  predicate HoldsSections(cmd: seq<byte>) {
    SEGMENT_SIZE <= |cmd| && SEGMENT_SIZE + SectionCount(cmd) * SECTION_SIZE <= |cmd|
  }

  function SectionsOf(cmd: seq<byte>, n: nat): (r: seq<Section>)
    requires HoldsSections(cmd) && n <= SectionCount(cmd)
    ensures |r| == n
    ensures forall i | 0 <= i < n :: r[i] == SectionAt(cmd, SEGMENT_SIZE + i * SECTION_SIZE)
  {
    if n == 0 then [] else SectionsOf(cmd, n - 1) + [SectionAt(cmd, SEGMENT_SIZE + (n - 1) * SECTION_SIZE)]
  }

  function SegmentOf(cmd: seq<byte>): Segment
    requires HoldsSections(cmd)
  {
    Segment(Trim(cmd[8..24]), U64(cmd, 24), U64(cmd, 32), U64(cmd, 40), U64(cmd, 48),
            U32(cmd, 56), U32(cmd, 60), U32(cmd, 68), SectionsOf(cmd, SectionCount(cmd)))
  }

  predicate SectionInFile(s: Section, fileSize: nat) {
    s.size != 0 ==> s.offset + s.size <= fileSize
  }

  /** The contents of a segment, and of every nonempty section, lie in the file. */
  predicate InFile(s: Segment, fileSize: nat) {
    s.fileoff + s.filesize <= fileSize &&
    forall i | 0 <= i < |s.sections| :: SectionInFile(s.sections[i], fileSize)
  }

  predicate SegmentOk(cmd: seq<byte>, fileSize: nat) {
    HoldsSections(cmd) && InFile(SegmentOf(cmd), fileSize)
  }

  /** The records of a thread command from offset `o` on. */
  function Records(cmd: seq<byte>, o: nat): seq<ThreadState>
    requires o <= |cmd|
    decreases |cmd| - o
  {
    if |cmd| - o < 8 then []
    else
      var n := BlobSize(cmd, o);
      [ThreadState(U32(cmd, o), U32(cmd, o + 4), cmd[o + 8..o + 8 + n])] + Records(cmd, o + 8 + n)
  }

  /** The number of data bytes of the record at `o`: four per count, or what is left. */
  function BlobSize(cmd: seq<byte>, o: nat): (n: nat)
    requires o + 8 <= |cmd|
    ensures o + 8 + n <= |cmd|
  {
    var wanted := U32(cmd, o + 4) * 4;
    if wanted <= |cmd| - (o + 8) then wanted else |cmd| - (o + 8)
  }

  /** The records tile the payload from `starts[0]` on, up to a tail of less than eight bytes;
      each holds the matching bytes, and only the last may be shorter than its count says. */
  ghost predicate TilePayload(cmd: seq<byte>, records: seq<ThreadState>, starts: seq<nat>) {
    |starts| == |records| + 1 &&
    starts[|records|] <= |cmd| < starts[|records|] + 8 &&
    forall i | 0 <= i < |records| :: RecordAt(cmd, records[i], starts[i], starts[i + 1])
  }

  predicate RecordAt(cmd: seq<byte>, r: ThreadState, lo: nat, hi: nat) {
    lo + 8 <= hi <= |cmd| && r.flavor == U32(cmd, lo) && r.count == U32(cmd, lo + 4) &&
    r.data == cmd[lo + 8..hi] && |r.data| <= r.count * 4 && (|r.data| < r.count * 4 ==> hi == |cmd|)
  }

  lemma {:induction false} RecordsTilePayload(cmd: seq<byte>, o: nat) returns (starts: seq<nat>)
    requires o <= |cmd|
    ensures TilePayload(cmd, Records(cmd, o), starts) && starts[0] == o
    decreases |cmd| - o
  {
    if |cmd| - o < 8 {
      starts := [o];
    } else {
      var next := o + 8 + BlobSize(cmd, o);
      var rest := RecordsTilePayload(cmd, next);
      starts := [o] + rest;
      var records := Records(cmd, o);
      forall i | 0 <= i < |records| ensures RecordAt(cmd, records[i], starts[i], starts[i + 1]) {
        if i > 0 {
          assert records[i] == Records(cmd, next)[i - 1];
          assert RecordAt(cmd, Records(cmd, next)[i - 1], rest[i - 1], rest[i]);
        }
      }
    }
  }

  /** Eight bytes per record plus the stored data plus the tail are the whole payload. */
  lemma {:induction false} RecordsAddUp(cmd: seq<byte>, o: nat)
    requires o <= |cmd|
    ensures 0 <= |cmd| - o - StoredBytes(Records(cmd, o)) < 8
    decreases |cmd| - o
  {
    if |cmd| - o >= 8 {
      var next := o + 8 + BlobSize(cmd, o);
      RecordsAddUp(cmd, next);
      assert Records(cmd, o)[1..] == Records(cmd, next);
    }
  }

  function StoredBytes(records: seq<ThreadState>): nat {
    if records == [] then 0 else 8 + |records[0].data| + StoredBytes(records[1..])
  }

  // ----- The whole file -----

  function CommandKind(b: seq<byte>, lo: nat): u32
    requires lo + COMMAND_SIZE <= |b|
  {
    U32(b, lo)
  }

  /** A load command occupies exactly the bytes from `lo` to `hi` and is well formed. */
  predicate CommandOk(b: seq<byte>, lo: nat, hi: nat) {
    lo + COMMAND_SIZE <= hi <= |b| && U32(b, lo + 4) == hi - lo &&
    (CommandKind(b, lo) == LC_SEGMENT_64 ==> SegmentOk(b[lo..hi], |b|)) &&
    (CommandKind(b, lo) == LC_THREAD ==> COMMAND_SIZE + 8 <= hi - lo)
  }

  function CommandCount(b: seq<byte>): u32 requires HEADER_SIZE <= |b| { U32(b, 16) }
  function CommandBytes(b: seq<byte>): u32 requires HEADER_SIZE <= |b| { U32(b, 20) }

  /** Commands follow each other from the header on. */
  ghost predicate Chain(b: seq<byte>, cuts: seq<nat>) {
    |cuts| > 0 && cuts[0] == HEADER_SIZE && forall i | 0 <= i < |cuts| - 1 :: CommandOk(b, cuts[i], cuts[i + 1])
  }

  /** The declared number of commands tiles the declared number of bytes. */
  ghost predicate Tiles(b: seq<byte>, cuts: seq<nat>)
    requires HEADER_SIZE <= |b|
  {
    Chain(b, cuts) && |cuts| == CommandCount(b) + 1 && cuts[|cuts| - 1] == HEADER_SIZE + CommandBytes(b)
  }

  /** The segments, and the thread records, that the commands between the cuts declare. */
  ghost function SegmentsOf(b: seq<byte>, cuts: seq<nat>): seq<Segment>
    requires Chain(b, cuts)
  {
    if |cuts| == 1 then [] else
      var n := |cuts| - 1;
      SegmentsOf(b, cuts[..n]) + SegmentsIn(b, cuts[n - 1], cuts[n])
  }

  function SegmentsIn(b: seq<byte>, lo: nat, hi: nat): seq<Segment>
    requires CommandOk(b, lo, hi)
  {
    if CommandKind(b, lo) == LC_SEGMENT_64 then [SegmentOf(b[lo..hi])] else []
  }

  ghost function ThreadsOf(b: seq<byte>, cuts: seq<nat>): seq<ThreadState>
    requires Chain(b, cuts)
  {
    if |cuts| == 1 then [] else
      var n := |cuts| - 1;
      ThreadsOf(b, cuts[..n]) + ThreadsIn(b, cuts[n - 1], cuts[n])
  }

  function ThreadsIn(b: seq<byte>, lo: nat, hi: nat): seq<ThreadState>
    requires CommandOk(b, lo, hi)
  {
    if CommandKind(b, lo) == LC_THREAD then Records(b[lo..hi], COMMAND_SIZE) else []
  }

  predicate IsNamed(segs: seq<Segment>, segment: seq<byte>, section: seq<byte>, i: nat, j: nat) {
    i < |segs| && j < |segs[i].sections| && segs[i].name == segment && segs[i].sections[j].sectionName == section
  }

  ghost predicate HasSection(segs: seq<Segment>, segment: seq<byte>, section: seq<byte>) {
    exists i: nat, j: nat :: IsNamed(segs, segment, section, i, j)
  }

  /** The two sections that the library needs. */
  ghost predicate HasNeeded(segs: seq<Segment>) {
    HasSection(segs, TEXT, TEXT_TEXT) && HasSection(segs, TEXT, TEXT_CONST)
  }

  predicate HeaderOk(b: seq<byte>) {
    HEADER_SIZE <= |b| && U32(b, 0) == MAGIC && HEADER_SIZE + CommandBytes(b) <= |b|
  }

  /** What an HWX file must be. */
  ghost predicate Accepts(b: seq<byte>) {
    HeaderOk(b) && exists cuts ::
      Tiles(b, cuts) && HasNeeded(SegmentsOf(b, cuts))
  }

  // ----- The commands of a file are determined by the file -----

  lemma {:induction false} ChainBounds(b: seq<byte>, cuts: seq<nat>, i: nat, j: nat)
    requires Chain(b, cuts) && i <= j < |cuts|
    ensures cuts[i] <= cuts[j]
  {
    if i < j {
      ChainBounds(b, cuts, i, j - 1);
      assert CommandOk(b, cuts[j - 1], cuts[j]);
    }
  }

  lemma {:induction false} ChainUnique(b: seq<byte>, cuts: seq<nat>, full: seq<nat>, i: nat)
    requires Chain(b, cuts) && Chain(b, full) && i < |cuts| <= |full|
    ensures cuts[i] == full[i]
  {
    if i > 0 {
      ChainUnique(b, cuts, full, i - 1);
      assert CommandOk(b, cuts[i - 1], cuts[i]) && CommandOk(b, full[i - 1], full[i]);
    }
  }

  /** There is at most one way to cut a file into commands. */
  lemma TilesUnique(b: seq<byte>, cuts: seq<nat>, full: seq<nat>)
    requires HEADER_SIZE <= |b| && Tiles(b, cuts) && Tiles(b, full)
    ensures cuts == full
  {
    forall i | 0 <= i < |cuts| ensures cuts[i] == full[i] {
      ChainUnique(b, cuts, full, i);
    }
  }

  /** The command at `lo` is well formed and stays inside the command area. */
  predicate NextOk(b: seq<byte>, lo: nat, end: nat) {
    lo + COMMAND_SIZE <= end <= |b| &&
    var hi := lo + U32(b, lo + 4);
    hi <= end && CommandOk(b, lo, hi)
  }

  /** A command that is not well formed, or leaves the command area, refuses the whole file. */
  lemma BadCommandRefuses(b: seq<byte>, cuts: seq<nat>)
    requires HeaderOk(b) && Chain(b, cuts) && |cuts| <= CommandCount(b)
    requires !NextOk(b, cuts[|cuts| - 1], HEADER_SIZE + CommandBytes(b))
    ensures !Accepts(b)
  {
    hide U32, SegmentOk, HasSection, SegmentsOf;
    if Accepts(b) {
      var full :| Tiles(b, full);
      var n := |cuts| - 1;
      ChainUnique(b, cuts, full, n);
      assert CommandOk(b, full[n], full[n + 1]);
      ChainBounds(b, full, n + 1, |full| - 1);
    }
  }

  /** So does a command area that the commands do not fill. */
  lemma ShortCommandsRefuse(b: seq<byte>, cuts: seq<nat>)
    requires HEADER_SIZE <= |b| && Chain(b, cuts) && |cuts| == CommandCount(b) + 1
    requires cuts[|cuts| - 1] != HEADER_SIZE + CommandBytes(b)
    ensures !Accepts(b)
  {
    if Accepts(b) {
      var full :| Tiles(b, full);
      ChainUnique(b, cuts, full, |cuts| - 1);
    }
  }

  /** Of a file that is cut into commands, only the two sections remain to be found. */
  lemma SectionsDecide(b: seq<byte>, cuts: seq<nat>)
    requires HeaderOk(b) && Tiles(b, cuts)
    ensures Accepts(b) <==>
      HasNeeded(SegmentsOf(b, cuts))
  {
    if Accepts(b) {
      var full :| Tiles(b, full) && HasNeeded(SegmentsOf(b, full));
      TilesUnique(b, cuts, full);
    }
  }

  /** Adding one command to a chain. */
  lemma ChainExtend(b: seq<byte>, cuts: seq<nat>, hi: nat)
    requires Chain(b, cuts) && CommandOk(b, cuts[|cuts| - 1], hi)
    ensures Chain(b, cuts + [hi])
    ensures SegmentsOf(b, cuts + [hi]) == SegmentsOf(b, cuts) + SegmentsIn(b, cuts[|cuts| - 1], hi)
    ensures ThreadsOf(b, cuts + [hi]) == ThreadsOf(b, cuts) + ThreadsIn(b, cuts[|cuts| - 1], hi)
  {
    var more := cuts + [hi];
    forall i | 0 <= i < |more| - 1 ensures CommandOk(b, more[i], more[i + 1]) {
      if i < |cuts| - 1 {
        assert CommandOk(b, cuts[i], cuts[i + 1]);
      }
    }
    assert more[..|cuts|] == cuts;
  }

  /** Every segment found in a chain lies in the file. */
  lemma {:induction false} SegmentsInFile(b: seq<byte>, cuts: seq<nat>, i: nat)
    requires Chain(b, cuts) && i < |SegmentsOf(b, cuts)|
    ensures InFile(SegmentsOf(b, cuts)[i], |b|)
  {
    var n := |cuts| - 1;
    assert CommandOk(b, cuts[n - 1], cuts[n]);
    if i < |SegmentsOf(b, cuts[..n])| {
      SegmentsInFile(b, cuts[..n], i);
    }
  }
}
