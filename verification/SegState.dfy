/** The segment record of a thread state, `struct hwx_ane_seg_state` of `src/libane/hwx.h`, as bytes
    in the order of its fields, and what a model takes from it. */
module SegState {
  import opened Words
  import opened HwxFormat
  import opened HwxCommands
  import opened Hwx
  import opened HwxEncoding
  import opened Network

  datatype Record = Record(
    baseAddr: seq<u64>, segAddr: u64, sectIdx: u64, segHeaderSize: u32, segWords: u32, segId: u32,
    firstTdId: u32, tdCount: u32, nextSegmentCount: u32, nextSegmentId: seq<u32>, ane: u32, ene: u32)

  predicate IsRecord(r: Record) {
    |r.baseAddr| == 256 && |r.nextSegmentId| == 2
  }

  /** 64-bit fields as pairs of words. */
  function Longs(xs: seq<u64>): (ws: seq<u32>)
    ensures |ws| == 2 * |xs|
  {
    if xs == [] then [] else [Lo(xs[0]), Hi(xs[0])] + Longs(xs[1..])
  }

  function RecordFields(r: Record): (ws: seq<u32>)
    requires IsRecord(r)
    ensures |ws| == 526
  {
    Longs(r.baseAddr) + ([Lo(r.segAddr), Hi(r.segAddr), Lo(r.sectIdx), Hi(r.sectIdx), r.segHeaderSize, r.segWords,
                          r.segId, r.firstTdId, r.tdCount, r.nextSegmentCount] +
                         (r.nextSegmentId + [r.ane, r.ene]))
  }

  function RecordBytes(r: Record): (b: seq<byte>)
    requires IsRecord(r)
    ensures |b| == 2104
  {
    Fields(RecordFields(r))
  }

  /** The two words that a model takes are the number of words and the number of tasks. */
  lemma RecordDecodes(data: seq<byte>, r: Record)
    requires IsRecord(r) && At(data, 0, RecordBytes(r))
    ensures |data| >= 2104 && U32(data, 2068) == r.segWords && U32(data, 2080) == r.tdCount
  {
    hide U32, At, Fields, Longs;
    AtIs(data, 0, RecordBytes(r));
    FieldAt(data, 0, RecordFields(r), 517);
    FieldAt(data, 0, RecordFields(r), 520);
  }

  /** State `n` is the first of flavor 4 that is long enough for a record. */
  predicate FirstRecord(states: seq<ThreadState>, n: nat) {
    n < |states| && states[n].flavor == 4 && |states[n].data| >= 2104 &&
    forall k | 0 <= k < n :: !(states[k].flavor == 4 && |states[k].data| >= 2104)
  }

  /** A model takes its task size and count from the first such record: four bytes per word, in 32
      bits. */
  lemma ModelOfRecord(m: Model, f: HwxFile, n: nat, r: Record)
    requires IsModel(m, f) && FirstRecord(Threads(f.parts.threads), n)
    requires IsRecord(r) && At(Threads(f.parts.threads)[n].data, 0, RecordBytes(r))
    ensures m.tdSize == r.segWords * 4 % 0x1_0000_0000 && m.tdCount == r.tdCount
  {
    hide Loaded, IsSection, Threads, U32, At, RecordBytes;
    var k: nat :| IsTask(m, f, k);
    OneFirst(Threads(f.parts.threads), n, k);
    RecordDecodes(Threads(f.parts.threads)[n].data, r);
  }

  lemma OneFirst(states: seq<ThreadState>, n: nat, k: nat)
    requires FirstRecord(states, n) && FirstSegState(states, k)
    ensures n == k
  {
    assert IsSegState(states[n]) && IsSegState(states[k]);
  }

  /** A file can be used exactly if it is acceptable and the record has a word, modulo 2^30. */
  lemma UsableByRecord(f: HwxFile, n: nat, r: Record)
    requires Loaded(f) && FirstRecord(Threads(f.parts.threads), n)
    requires IsRecord(r) && At(Threads(f.parts.threads)[n].data, 0, RecordBytes(r))
    ensures Usable(f.bytes) <==> r.segWords % 0x4000_0000 != 0
  {
    hide Loaded, Threads, U32, At, RecordBytes, Usable;
    var states := Threads(f.parts.threads);
    UsableIff(f);
    RecordDecodes(states[n].data, r);
    assert FirstSegState(states, n);
    assert TdSizeOf(states[n]) == r.segWords * 4 % 0x1_0000_0000;
    if HasTask(states) {
      var k: nat :| FirstSegState(states, k) && TdSizeOf(states[k]) != 0;
      OneFirst(states, n, k);
    }
  }

  /** A file without such a record cannot be used. */
  lemma UnusableWithout(f: HwxFile)
    requires Loaded(f) && forall n: nat :: !FirstRecord(Threads(f.parts.threads), n)
    ensures !Usable(f.bytes)
  {
    hide Loaded, Threads, U32, Usable;
    UsableIff(f);
    if HasTask(Threads(f.parts.threads)) {
      var k: nat :| FirstSegState(Threads(f.parts.threads), k) && TdSizeOf(Threads(f.parts.threads)[k]) != 0;
      FirstIsRecord(Threads(f.parts.threads), k);
    }
  }

  lemma FirstIsRecord(states: seq<ThreadState>, k: nat)
    requires FirstSegState(states, k)
    ensures FirstRecord(states, k)
  {
    forall j | 0 <= j < k ensures !(states[j].flavor == 4 && |states[j].data| >= 2104) {
      assert !IsSegState(states[j]);
    }
  }
}
