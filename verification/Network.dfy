/** Setting up and releasing a network, in `src/libane/ane.c`: everything or nothing. */
module Network {
  import opened Words
  import opened Uapi
  import opened Wrappers
  import opened HwxFormat
  import opened Platform
  import opened HwxCommands
  import opened Hwx
  import opened Channels
  import Tiling

  const SEG_STATE := 4
  const SEG_STATE_SIZE := 2104
  const MAX_ANE_DEVICES := 2

  datatype Model = Model(size: u64, tdSize: u32, tdCount: u32, tskSize: u64, krnSize: u64,
                         srcCount: u32, dstCount: u32, tiles: seq<u32>, nchw: seq<Tiling.Dims>, hwx: Option<HwxFile>)

  function NoTiles(): (r: seq<u32>)
    ensures |r| == ANE_MAX_TILE_COUNT && forall b | 0 <= b < |r| :: r[b] == 0
  {
    seq(ANE_MAX_TILE_COUNT, _ => 0)
  }

  /** A zeroed model. */
  function NoModel(): Model {
    Model(0, 0, 0, 0, 0, 0, 0, NoTiles(), seq(ANE_MAX_TILE_COUNT, _ => Tiling.Dims(0, 0, 0, 0, 0, 0)), None)
  }

  // ----- What a file must say to be a network -----

  /** A thread state that holds a whole segment record. */
  predicate IsSegState(t: ThreadState) {
    t.flavor == SEG_STATE && |t.data| >= SEG_STATE_SIZE
  }

  /** Four bytes per word of the segment, as far as they fit into 32 bits. */
  function TdSizeOf(t: ThreadState): u32
    requires IsSegState(t)
  {
    U32(t.data, 2068) * 4 % 0x1_0000_0000
  }

  predicate FirstSegState(states: seq<ThreadState>, n: nat) {
    n < |states| && IsSegState(states[n]) && forall k | 0 <= k < n :: !IsSegState(states[k])
  }

  ghost predicate HasTask(states: seq<ThreadState>) {
    exists n: nat :: FirstSegState(states, n) && TdSizeOf(states[n]) != 0
  }

  /** An acceptable file that describes a task of nonzero size. */
  ghost predicate Usable(b: seq<byte>) {
    Accepts(b) && exists cuts :: Tiles(b, cuts) && HasTask(ThreadsOf(b, cuts))
  }

  lemma UsableIff(f: HwxFile)
    requires Loaded(f)
    ensures Usable(f.bytes) <==> HasTask(Threads(f.parts.threads))
  {
    hide HasTask, Threads, Segments, SegmentsOf, ThreadsOf, HasSection, TdVersion, U32, Chain;
    var cuts :| Cut(f, cuts);
    if Usable(f.bytes) {
      var full :| Tiles(f.bytes, full) && HasTask(ThreadsOf(f.bytes, full));
      TilesUnique(f.bytes, cuts, full);
    }
  }

  /** The section that a lookup by name finds. */
  ghost predicate IsSection(f: HwxFile, name: seq<byte>, s: Section) {
    exists i: nat, j: nat :: Picks(f, name, i, j, s)
  }

  ghost predicate Picks(f: HwxFile, name: seq<byte>, i: nat, j: nat, s: Section) {
    IsFirst(Segments(f.parts.segments), Some(TEXT), name, i, j) && Segments(f.parts.segments)[i].sections[j] == s
  }

  /** The two sections are there in every file that was opened. */
  lemma LoadedHasSections(f: HwxFile)
    requires Loaded(f)
    ensures HasNeeded(Segments(f.parts.segments))
  {
    hide TdVersion, U32, HasSection, Segments, Threads, Tiles, Covers;
    var cuts :| Cut(f, cuts);
    LoadedIf(f, cuts);
  }

  /** `hwx_get_tsk_section` or `hwx_get_krn_section` of an open file. */
  method GetSection(f: HwxFile, name: seq<byte>) returns (s: Section)
    requires Loaded(f) && (name == TEXT_TEXT || name == TEXT_CONST)
    ensures IsSection(f, name, s) && HasSectionIn(f, s)
  {
    hide Loaded, FirstMatch;
    var found := SectionByName(Some(f), Some(TEXT), Some(name));
    LoadedHasSections(f);
    FoundIffThere(Segments(f.parts.segments), TEXT, name, found);
    FirstIs(Segments(f.parts.segments), Some(TEXT), name, found);
    var (i, j) := found.value;
    s := f.parts.segments[i].segment.sections[j];
    assert Picks(f, name, i, j, s);
    assert s in Segments(f.parts.segments)[i].sections;
  }

  lemma FirstIs(segs: seq<Segment>, segment: Option<seq<byte>>, section: seq<byte>, found: Option<(nat, nat)>)
    requires FirstMatch(segs, segment, section, found) && found.Some?
    ensures IsFirst(segs, segment, section, found.value.0, found.value.1)
  {
  }

  /** What the fields of a model say about its file. */
  ghost predicate IsModel(m: Model, f: HwxFile) {
    m.hwx == Some(f) && Loaded(f) && m.tiles == NoTiles() && m.srcCount == m.dstCount == 0 &&
    m.size == m.tdSize && m.tdSize != 0 &&
    (exists n: nat :: IsTask(m, f, n)) &&
    (exists s :: IsSection(f, TEXT_TEXT, s) && m.tskSize == s.size) &&
    (exists s :: IsSection(f, TEXT_CONST, s) && m.krnSize == s.size)
  }

  ghost predicate IsTask(m: Model, f: HwxFile, n: nat) {
    DescribedBy(m, Threads(f.parts.threads), n)
  }

  predicate DescribedBy(m: Model, states: seq<ThreadState>, n: nat) {
    FirstSegState(states, n) && m.tdSize == TdSizeOf(states[n]) && m.tdCount == U32(states[n].data, 2080)
  }

  /** The search for the first segment record. */
  method FindSegState(f: HwxFile) returns (found: Option<nat>)
    ensures found.Some? ==> FirstSegState(Threads(f.parts.threads), found.value)
    ensures found.None? ==> forall n: nat :: !FirstSegState(Threads(f.parts.threads), n)
  {
    hide Loaded;
    ghost var states := Threads(f.parts.threads);
    var cursor: Option<nat> := None;
    var start := 0;
    while true
      invariant start == if cursor.Some? then cursor.value + 1 else 0
      invariant start <= |states| && forall k | 0 <= k < start :: !IsSegState(states[k])
      decreases |states| - start
    {
      cursor := ThreadStateNext(Some(f), SEG_STATE, cursor);
      if cursor.None? {
        return None;
      }
      if |f.parts.threads[cursor.value].state.data| >= SEG_STATE_SIZE {
        return cursor;
      }
      start := cursor.value + 1;
    }
  }

  // ----- The bootstrap image -----

  /** The first bytes of the `__text` section, padded with zeros, with the network id put in;
      only zeros and the id if the section could not be read. */
  ghost predicate Booted(f: HwxFile, tdSize: u32, data: seq<byte>, read: bool) {
    exists text :: IsSection(f, TEXT_TEXT, text) &&
                   BootedFrom(f.bytes, text, CopySize(tdSize, text.size, |data|), data, read)
  }

  ghost predicate BootedFrom(b: seq<byte>, text: Section, n: nat, data: seq<byte>, read: bool) {
    n <= |data| && (n > 0 ==> text.offset + n <= |b|) &&
    Named(data, if read then Padded(b, text, n, |data|) else Zeros(|data|), ANE_FIFO_NID)
  }

  // ----- The network -----

  class NeuralNet {
    const mem: nat
    var fd: nat
    var model: Model
    var chans: seq<Channel>
    var btsp: Channel

    constructor (mem: nat)
      ensures this.mem == mem && model == NoModel() && Fresh()
    {
      this.mem := mem;
      fd, model := 0, NoModel();
      chans, btsp := seq(ANE_MAX_TILE_COUNT, _ => EMPTY), EMPTY;
    }

    /** No channel is set up. */
    ghost predicate Fresh()
      reads this`chans, this`btsp
    {
      |chans| == ANE_MAX_TILE_COUNT && Blank(btsp) && forall k | 0 <= k < |chans| :: Blank(chans[k])
    }

    /** `base` and the channels. */
    ghost function WithChannels(base: Resources): Resources
      reads this`chans, this`btsp
    {
      Plus(Rest(base, chans, 0), btsp)
    }

    lemma FreshHoldsNothing(base: Resources)
      requires Fresh()
      ensures WithChannels(base) == base
    {
      RestBlank(base, chans, 0);
      NothingGained(base, btsp);
    }

    /** `ane_model_init`. */
    method ModelInit(sys: System, path: Option<Inode>) returns (ok: bool)
      requires sys.Valid() && (path.Some? ==> |path.value.bytes| < 0x8000_0000_0000_0000)
      modifies this`model, sys
      ensures sys.Valid() && (old(sys.faulted) ==> sys.faulted)
      ensures !ok ==> sys.res == old(sys.res) && model.hwx == None
      ensures !ok ==> sys.faulted || path.None? || !path.value.regular || !Usable(path.value.bytes)
      ensures ok ==> sys.faulted == old(sys.faulted) && path.Some? && path.value.regular && Usable(path.value.bytes)
      ensures ok ==> model.hwx.Some? && model.hwx.value.bytes == path.value.bytes && IsModel(model, model.hwx.value)
      ensures ok ==> sys.res == Gained(old(sys.res), model.hwx.value)
    {
      hide System.Valid, Loaded, Usable, Gained, Lost, Blocks, Threads, U32, Accepts, IsSection;
      model := NoModel();
      var file := Open(sys, path);
      if file.None? {
        NotUsable(path);
        return false;
      }
      var f := file.value;
      model := model.(hwx := Some(f));
      UsableIff(f);
      var seg := FindSegState(f);
      ghost var before := old(sys.res);
      CanClose(before, f);
      if seg.None? {
        Close(sys, file);
        model := model.(hwx := None);
        return false;
      }
      var state := f.parts.threads[seg.value].state;
      StateAt(f, seg.value);
      model := model.(tdSize := TdSizeOf(state), tdCount := U32(state.data, 2080), size := TdSizeOf(state));
      if model.tdSize == 0 {
        OnlyFirst(Threads(f.parts.threads), seg.value);
        Close(sys, file);
        model := model.(hwx := None);
        return false;
      }
      var text := GetSection(f, TEXT_TEXT);
      var konst := GetSection(f, TEXT_CONST);
      model := model.(tskSize := text.size, krnSize := konst.size);
      assert IsTask(model, f, seg.value);
      ok := true;
    }

    /** The section is read over zeros; after a failed read there are zeros again. */
    method CopyText(sys: System, f: HwxFile, text: Section, mem: array<byte>, copy: u64) returns (read: bool)
      requires HasSectionIn(f, text) && f.fileSize == |f.bytes| && 0 < copy <= mem.Length && copy <= text.size
      requires mem[..] == Zeros(mem.Length)
      modifies sys`interrupts, sys`faulted, mem
      ensures (old(sys.faulted) ==> sys.faulted) && (!read ==> sys.faulted)
      ensures text.offset + copy <= |f.bytes|
      ensures mem[..] == if read then Padded(f.bytes, text, copy, mem.Length) else Zeros(mem.Length)
    {
      hide Loaded;
      SectionLiesInFile(f, text);
      read := SectionRead(sys, Some(f), Some(text), 0, mem, copy);
      assert mem[..] == mem[..copy] + mem[copy..];
      if !read {
        Tiling.ClearBytes(mem, copy);
      }
    }

    /** `set_btsp_and_command`. */
    method SetBtsp(sys: System)
      requires model.hwx.Some? ==> Loaded(model.hwx.value)
      requires btsp.mapping.Some? ==> btsp.mapping.value.mem.Length == btsp.size && (btsp.size > 0 ==> btsp.size >= 4)
      modifies sys`interrupts, sys`faulted, if btsp.mapping.Some? then {btsp.mapping.value.mem} else {}
      ensures old(sys.faulted) ==> sys.faulted
      ensures model.hwx.Some? && btsp.mapping.Some? && btsp.size > 0 ==>
        Booted(model.hwx.value, model.tdSize, btsp.mapping.value.mem[..], true) ||
        (sys.faulted && Booted(model.hwx.value, model.tdSize, btsp.mapping.value.mem[..], false))
    {
      hide Loaded, IsSection, Named, U32;
      if model.hwx.None? || btsp.mapping.None? || btsp.size == 0 {
        return;
      }
      var f, mem, size := model.hwx.value, btsp.mapping.value.mem, btsp.size;
      LoadedSize(f);
      Tiling.ClearBytes(mem, size);
      assert mem[..] == Zeros(size);
      var text := GetSection(f, TEXT_TEXT);
      var copy: u64 := model.tdSize;
      if copy == 0 || copy > text.size {
        copy := text.size;
      }
      if copy > size {
        copy := size;
      }
      assert copy == CopySize(model.tdSize, text.size, size);
      var read := true;
      if copy > 0 {
        read := CopyText(sys, f, text, mem, copy);
      } else {
        assert mem[..] == Padded(f.bytes, text, 0, size);
      }
      SetNid(mem, ANE_FIFO_NID);
      assert BootedFrom(f.bytes, text, copy, mem[..], read);
    }

    /** `ane_chan_free`. */
    method ChanFree(sys: System, ghost base: Resources)
      requires sys.Valid() && |chans| == ANE_MAX_TILE_COUNT && sys.res == WithChannels(base)
      modifies this`chans, this`btsp, sys`res
      ensures sys.Valid() && sys.res == base && Fresh()
    {
      hide System.Valid, Rest, Plus, Minus, Holds;
      MinusPlus(Rest(base, chans, 0), btsp);
      btsp := AneBoFree(sys, btsp);
      for bdx := 0 to ANE_MAX_TILE_COUNT
        invariant sys.Valid() && |chans| == ANE_MAX_TILE_COUNT && Blank(btsp)
        invariant forall k | 0 <= k < bdx :: Blank(chans[k])
        invariant sys.res == Rest(base, chans, bdx)
      {
        RestStep(base, chans, bdx);
        MinusPlus(Rest(base, chans, bdx + 1), chans[bdx]);
        var bo := AneBoFree(sys, chans[bdx]);
        RestSame(base, chans, bdx, bo);
        chans := chans[bdx := bo];
      }
      RestBlank(base, chans, ANE_MAX_TILE_COUNT);
    }

    /** The channels that the model asks for are set up, and no others. */
    ghost predicate Ready(n: nat)
      requires n <= |chans| == |model.tiles|
      reads this`chans, this`model
    {
      forall b | 0 <= b < |chans| ::
        if b < n && model.tiles[b] != 0 then Live(chans[b]) && chans[b].size == model.tiles[b] * TILE_SIZE
        else Blank(chans[b])
    }

    /** The loop of `ane_chan_init`. */
    method TilesInit(sys: System, ghost base: Resources) returns (ok: bool)
      requires sys.Valid() && sys.res == base && Fresh() && |model.tiles| == ANE_MAX_TILE_COUNT
      modifies this`chans, sys`res, sys`next, sys`faulted
      ensures sys.Valid() && (old(sys.faulted) ==> sys.faulted) && |chans| == ANE_MAX_TILE_COUNT
      ensures sys.res == WithChannels(base)
      ensures !ok ==> sys.faulted
      ensures ok ==> sys.faulted == old(sys.faulted) && Ready(ANE_MAX_TILE_COUNT)
    {
      hide System.Valid, Rest, Plus;
      FreshHoldsNothing(base);
      for bdx := 0 to ANE_MAX_TILE_COUNT
        invariant sys.Valid() && |chans| == ANE_MAX_TILE_COUNT && Blank(btsp) && Ready(bdx)
        invariant sys.res == WithChannels(base) && sys.faulted == old(sys.faulted)
      {
        if model.tiles[bdx] != 0 {
          var bo := chans[bdx].(size := model.tiles[bdx] * TILE_SIZE);
          ok, bo := AneBoInit(sys, bo);
          AddOne(base, chans, bdx, bo, btsp);
          chans := chans[bdx := bo];
          if !ok {
            return;
          }
        }
      }
      ok := true;
    }

    /** Channel `bdx` can take or give the data that its dimensions describe. */
    ghost predicate Transfers(bdx: nat, size: nat)
      reads this`chans, this`model
    {
      bdx < |chans| && bdx < |model.nchw| && chans[bdx].mapping.Some? && model.nchw[bdx].Ok() &&
      model.nchw[bdx].TileSize() <= chans[bdx].mapping.value.mem.Length && model.nchw[bdx].DataSize() <= size
    }

    function SrcBdx(idx: u32): nat reads this`model { 4 + model.dstCount + idx }
    function DstBdx(idx: u32): nat { 4 + idx }

    /** `__ane_tile_send`: an index that is out of range does nothing. */
    method TileSend(from: array<byte>, idx: u32)
      requires idx < model.srcCount ==> Transfers(SrcBdx(idx), from.Length)
      requires idx < model.srcCount ==> chans[SrcBdx(idx)].mapping.value.mem != from
      requires idx < model.srcCount && model.nchw[SrcBdx(idx)].Fast() ==>
        model.nchw[SrcBdx(idx)].TileSize() <= from.Length
      modifies if idx < model.srcCount then {chans[SrcBdx(idx)].mapping.value.mem} else {}
      ensures idx < model.srcCount ==>
        var mem := chans[SrcBdx(idx)].mapping.value.mem;
        mem[..] == Tiling.TileOf(model.nchw[SrcBdx(idx)], old(mem[..]), from[..])
    {
      if idx >= model.srcCount {
        return;
      }
      var bdx := 4 + model.dstCount + idx;
      Tiling.AneTile(from, chans[bdx].mapping.value.mem, model.nchw[bdx]);
    }

    /** `__ane_tile_read`. */
    method TileRead(to: array<byte>, idx: u32)
      requires idx < model.dstCount ==> Transfers(DstBdx(idx), to.Length)
      requires idx < model.dstCount ==> chans[DstBdx(idx)].mapping.value.mem != to
      modifies if idx < model.dstCount then {to} else {}
      ensures idx < model.dstCount ==>
        to[..] == Tiling.UntileOf(model.nchw[DstBdx(idx)], old(to[..]), chans[DstBdx(idx)].mapping.value.mem[..])
    {
      if idx >= model.dstCount {
        return;
      }
      var bdx := 4 + idx;
      Tiling.AneUntile(to, chans[bdx].mapping.value.mem, model.nchw[bdx]);
    }

    /** The image of the bootstrap buffer; exact unless something failed. */
    ghost predicate BtspBooted(faulted: bool)
      reads this`btsp, this`model, if btsp.mapping.Some? then {btsp.mapping.value.mem} else {}
    {
      btsp.mapping.Some? && (model.hwx.Some? ==>
        Booted(model.hwx.value, model.tdSize, btsp.mapping.value.mem[..], true) ||
        (faulted && Booted(model.hwx.value, model.tdSize, btsp.mapping.value.mem[..], false)))
    }

    /** `ane_chan_init`.  With a task size of zero the channels stay set up although it fails. */
    method ChanInit(sys: System, ghost base: Resources) returns (ok: bool)
      requires sys.Valid() && sys.res == base && Fresh() && |model.tiles| == ANE_MAX_TILE_COUNT
      requires model.hwx.Some? ==> Loaded(model.hwx.value)
      modifies this`chans, this`btsp, sys
      ensures sys.Valid() && (old(sys.faulted) ==> sys.faulted) && |chans| == ANE_MAX_TILE_COUNT
      ensures sys.res == WithChannels(base)
      ensures !ok ==> sys.faulted || model.tdSize == 0
      ensures !ok && model.tdSize != 0 ==> Fresh()
      ensures model.tdSize == 0 ==> !ok && (sys.faulted || Ready(ANE_MAX_TILE_COUNT))
      ensures ok ==> Ready(ANE_MAX_TILE_COUNT) && Live(btsp) && btsp.size == TileAlign(model.tdSize)
      ensures ok ==> BtspBooted(sys.faulted)
    {
      hide System.Valid, Rest, Plus, Loaded, Booted, TileAlign;
      ok := TilesInit(sys, base);
      if !ok {
        ChanFree(sys, base);
        FreshHoldsNothing(base);
        return;
      }
      if model.tdSize == 0 {
        return false;
      }
      TileAlignLeast(model.tdSize);
      NothingGained(Rest(base, chans, 0), btsp);
      btsp := btsp.(size := TileAlign(model.tdSize));
      ok, btsp := AneBoInit(sys, btsp);
      if !ok {
        ChanFree(sys, base);
        FreshHoldsNothing(base);
        return;
      }
      SetBtsp(sys);
    }

    /** `ane_model_free`. */
    method ModelFree(sys: System, ghost base: Resources)
      requires sys.Valid() && model.hwx.Some? && Loaded(model.hwx.value) && sys.res == Gained(base, model.hwx.value)
      modifies this`model, sys`res
      ensures sys.Valid() && sys.res == base && model.hwx == None
    {
      hide System.Valid, Loaded, Gained, Lost, Blocks;
      CanClose(base, model.hwx.value);
      Close(sys, model.hwx);
      model := model.(hwx := None);
    }

    /** What a network holds, on top of `base`: its block, its file, its device and its channels. */
    ghost function Owned(base: Resources): Resources
      requires model.hwx.Some?
      reads this
    {
      WithChannels(WithFd(Gained(WithBlock(base, mem), model.hwx.value), fd))
    }

    /** A network is complete: its model, and every channel the model asks for. */
    ghost predicate Complete()
      reads this
    {
      model.hwx.Some? && IsModel(model, model.hwx.value) && |chans| == |model.tiles| == ANE_MAX_TILE_COUNT &&
      Ready(ANE_MAX_TILE_COUNT) && Live(btsp) && btsp.size == TileAlign(model.tdSize)
    }

    /** The end of `__ane_free`, and of `__ane_init` if the channels cannot be set up. */
    method TearDown(sys: System, ghost base: Resources)
      requires sys.Valid() && model.hwx.Some? && Loaded(model.hwx.value)
      requires sys.res == WithFd(Gained(WithBlock(base, mem), model.hwx.value), fd)
      modifies this`model, this`fd, sys`res
      ensures sys.Valid() && sys.res == base
    {
      hide System.Valid, Loaded, Gained, WithBlock, WithFd;
      UndoFd(Gained(WithBlock(base, mem), model.hwx.value), fd);
      sys.Close(fd);
      fd := 0;
      ModelFree(sys, WithBlock(base, mem));
      UndoBlock(base, mem);
      sys.Free(Some(mem));
    }

    /** `__ane_init` once the network itself is allocated; on failure the network is released. */
    method SetUp(sys: System, path: Option<Inode>, devId: int, ghost base: Resources) returns (ok: bool)
      requires sys.Valid() && (path.Some? ==> |path.value.bytes| < 0x8000_0000_0000_0000)
      requires Fresh() && sys.res == WithBlock(base, mem)
      modifies this, sys
      ensures sys.Valid() && (old(sys.faulted) ==> sys.faulted)
      ensures !ok ==> sys.res == base && (sys.faulted || !CanRun(path, devId))
      ensures ok ==> CanRun(path, devId) && Complete() && sys.res == Owned(base)
      ensures ok ==> model.hwx.value.bytes == path.value.bytes && BtspBooted(sys.faulted)
    {
      hide System.Valid, Loaded, Gained, WithBlock, WithFd, TileAlign, IsSection, Usable, Rest, Plus, Booted;
      UndoBlock(base, mem);
      ok := ModelInit(sys, path);
      if !ok {
        sys.Free(Some(mem));
        return;
      }
      var device := DeviceOpen(sys, devId);
      if device.None? {
        ModelFree(sys, WithBlock(base, mem));
        sys.Free(Some(mem));
        return false;
      }
      fd := device.value;
      ok := ChanInit(sys, sys.res);
      if !ok {
        FreshHoldsNothing(WithFd(Gained(WithBlock(base, mem), model.hwx.value), fd));
        TearDown(sys, base);
      }
    }

    /** `__ane_free`. */
    method Free(sys: System, ghost base: Resources)
      requires sys.Valid() && Complete() && sys.res == Owned(base)
      modifies this, sys`res
      ensures sys.Valid() && sys.res == base
    {
      hide System.Valid, Loaded, Gained, WithBlock, WithFd, Ready, TileAlign, IsSection;
      ChanFree(sys, WithFd(Gained(WithBlock(base, mem), model.hwx.value), fd));
      TearDown(sys, base);
    }
  }

  function WithBlock(r: Resources, mem: nat): Resources {
    r.(blocks := r.blocks + multiset{mem})
  }

  function WithFd(r: Resources, fd: nat): Resources {
    r.(fds := r.fds + multiset{fd})
  }

  lemma UndoBlock(r: Resources, mem: nat)
    ensures Held(Some(mem)) <= WithBlock(r, mem).blocks
    ensures WithBlock(r, mem).(blocks := WithBlock(r, mem).blocks - Held(Some(mem))) == r
  {
    assert r.blocks + multiset{mem} - multiset{mem} == r.blocks;
  }

  lemma UndoFd(r: Resources, fd: nat)
    ensures fd in WithFd(r, fd).fds && WithFd(r, fd).(fds := WithFd(r, fd).fds - multiset{fd}) == r
  {
    assert r.fds + multiset{fd} - multiset{fd} == r.fds;
  }

  /** `ane_device_open`; the search among the device nodes may find nothing. */
  method DeviceOpen(sys: System, devId: int) returns (fd: Option<nat>)
    requires sys.Valid()
    modifies sys`res, sys`next, sys`faulted
    ensures sys.Valid() && (old(sys.faulted) ==> sys.faulted)
    ensures fd.None? ==> sys.res == old(sys.res) && (sys.faulted || !(0 <= devId < MAX_ANE_DEVICES))
    ensures fd.Some? ==> sys.res == WithFd(old(sys.res), fd.value) && sys.faulted == old(sys.faulted)
    ensures fd.Some? ==> 0 <= devId < MAX_ANE_DEVICES
  {
    hide System.Valid;
    assert sys.res.fds + multiset{} == sys.res.fds;
    if !(0 <= devId < MAX_ANE_DEVICES) {
      return None;
    }
    fd := sys.Open();
  }

  /** `__ane_init`: a complete network, or nothing at all; and nothing only for a reason. */
  method Init(sys: System, path: Option<Inode>, devId: int) returns (nn: NeuralNet?)
    requires sys.Valid() && (path.Some? ==> |path.value.bytes| < 0x8000_0000_0000_0000)
    modifies sys
    ensures sys.Valid() && (old(sys.faulted) ==> sys.faulted)
    ensures nn == null ==> sys.res == old(sys.res)
    ensures nn == null ==> sys.faulted || !CanRun(path, devId)
    ensures nn != null ==> CanRun(path, devId) && fresh(nn) && nn.Complete() && sys.res == nn.Owned(old(sys.res))
    ensures nn != null ==> nn.model.hwx.value.bytes == path.value.bytes && nn.BtspBooted(sys.faulted)
  {
    hide System.Valid, CanRun, Loaded, TileAlign, IsModel;
    assert sys.res.blocks + multiset{} == sys.res.blocks;
    ghost var base := sys.res;
    var mem := sys.Malloc();
    if mem.None? {
      return null;
    }
    nn := new NeuralNet(mem.value);
    var ok := nn.SetUp(sys, path, devId, base);
    if !ok {
      return null;
    }
  }

  /** What the caller must supply. */
  ghost predicate CanRun(path: Option<Inode>, devId: int) {
    0 <= devId < MAX_ANE_DEVICES && path.Some? && path.value.regular && Usable(path.value.bytes)
  }

  function Smaller(a: nat, b: nat): nat { if a <= b then a else b }

  /** The image of a complete network, byte for byte: min(task size, section size) bytes of the
      section, then zeros; byte 2 is the network id, and of byte 3 only the low half is kept. */
  lemma BootImage(f: HwxFile, tdSize: u32, data: seq<byte>)
    requires tdSize != 0 && |data| == TileAlign(tdSize) && Booted(f, tdSize, data, true)
    ensures exists text :: IsSection(f, TEXT_TEXT, text) && ImageOf(f.bytes, text, Smaller(tdSize, text.size), data)
  {
    hide TileAlign, IsSection, CopySize, ImageOf, Padded, Named;
    var text :| IsSection(f, TEXT_TEXT, text) &&
                BootedFrom(f.bytes, text, CopySize(tdSize, text.size, |data|), data, true);
    CopySizeIsMin(tdSize, text.size);
    ImageBytes(f.bytes, text, Smaller(tdSize, text.size), data);
  }

  predicate ImageOf(b: seq<byte>, text: Section, n: nat, data: seq<byte>) {
    (n > 0 ==> text.offset + n <= |b|) && n <= |data| && |data| >= 4 &&
    forall i: nat | i < |data| ::
      data[i] == if i == 2 then 0x40 else if i == 3 then ImageByte(b, text, n, 3) % 0x10 else ImageByte(b, text, n, i)
  }

  function ImageByte(b: seq<byte>, text: Section, n: nat, i: nat): byte
    requires n > 0 ==> text.offset + n <= |b|
  {
    if i < n then b[text.offset + i] else 0
  }

  lemma ImageBytes(b: seq<byte>, text: Section, n: nat, data: seq<byte>)
    requires n <= |data| && (n > 0 ==> text.offset + n <= |b|)
    requires Named(data, Padded(b, text, n, |data|), ANE_FIFO_NID)
    ensures ImageOf(b, text, n, data)
  {
    hide Padded, Named;
    var plain := Padded(b, text, n, |data|);
    NamedLong(data, plain, ANE_FIFO_NID);
    PaddedByte(b, text, n, |data|, 3);
    forall i: nat | i < |data|
      ensures data[i] == if i == 2 then 0x40 else if i == 3 then plain[3] % 0x10 else plain[i]
      ensures plain[i] == ImageByte(b, text, n, i)
    {
      NamedBytes(data, plain, ANE_FIFO_NID, i);
      PaddedByte(b, text, n, |data|, i);
    }
  }

  lemma PaddedByte(b: seq<byte>, text: Section, n: nat, size: nat, i: nat)
    requires n <= size && (n > 0 ==> text.offset + n <= |b|) && i < size
    ensures Padded(b, text, n, size)[i] == ImageByte(b, text, n, i)
  {
  }

  lemma NamedLong(data: seq<byte>, plain: seq<byte>, nid: u32)
    requires Named(data, plain, nid)
    ensures |data| == |plain| >= 4
  {
  }

  /** A lookup by name has one answer. */
  lemma SectionUnique(f: HwxFile, name: seq<byte>, s: Section, t: Section)
    requires IsSection(f, name, s) && IsSection(f, name, t)
    ensures s == t
  {
    hide Segments, Matches;
    var i: nat, j: nat :| Picks(f, name, i, j, s);
    var k: nat, l: nat :| Picks(f, name, k, l, t);
    assert !Before(i, j, k, l) && !Before(k, l, i, j);
  }

  lemma LoadedSize(f: HwxFile)
    requires Loaded(f)
    ensures f.fileSize == |f.bytes|
  {
  }

  lemma NotUsable(path: Option<Inode>)
    ensures path.Some? && !Accepts(path.value.bytes) ==> !Usable(path.value.bytes)
  {
  }

  lemma StateAt(f: HwxFile, n: nat)
    requires n < |f.parts.threads|
    ensures Threads(f.parts.threads)[n] == f.parts.threads[n].state
  {
  }

  lemma OnlyFirst(states: seq<ThreadState>, n: nat)
    requires FirstSegState(states, n) && TdSizeOf(states[n]) == 0
    ensures !HasTask(states)
  {
  }
}
