/** The buffer and submit ioctls of `driver/src/ane_drv.c`.

    The kernel services are unknown to the driver: the allocator returns any free aligned hole that
    is not empty, or fails; mapping a page is refused where one is mapped, and may fail; so may
    every allocation.  Their choices are arbitrary values (`*`), so the contracts hold for all. */
module Driver {
  import opened Words
  import opened Uapi
  import opened Bits
  import opened Wrappers
  import opened AddressSpace
  import Engine
  import Protocol
  import RegisterValues

  const CMD_BUF_BDX := 0
  const KRN_BUF_BDX := 1
  const DRM_ANE_ID_H13 := 4

  const EINVAL := -22
  const ENOMEM := -12
  const EBUSY := -16
  const EEXIST := -17
  const ENOSPC := -28

  /** `struct ane_hw` without its functions. */
  datatype Hardware = Hardware(id: nat, vmBase: nat, vmSize: nat, barCount: nat)

  const H13 := Hardware(DRM_ANE_ID_H13, 0x4000, 0xe000_0000, 0x20)

  /** The window that `ane_iommu_domain_init` sets up.  `max_iova` is passed as the size. */
  function DomainWindow(hw: Hardware, page: nat): Window
    requires page <= hw.vmBase + hw.vmSize
  {
    var minIova := hw.vmBase;
    var maxIova := minIova + hw.vmSize - page;
    Window(minIova, minIova + maxIova, page)
  }

  /** The number of pages of the memory object made for `size` bytes: `round_up` on 64 bits, then
      shifted. */
  function ObjectPages(shift: nat, size: u64): nat {
    Shr(Low(Shr(size + Pow2(shift) - 1, shift) * Pow2(shift), 64), shift)
  }

  /** The number of pages that the driver counts, in 32 bits. */
  function PageCount(shift: nat, size: u64): nat {
    Low(ObjectPages(shift, size), 32)
  }

  /** `struct drm_ane_submit`. */
  datatype SubmitArgs = SubmitArgs(
    tskSize: u64, tdCount: u32, tdSize: u32, handles: seq<u32>, btspHandle: u32, pad: u32)

  /** `round_up(x, ANE_CMD_GRAN)`. */
  function RoundUp16(x: nat): nat {
    (x + 15) / 16 * 16
  }

  /** `struct ane_bo`; `mm` names the allocator's node. */
  class Bo {
    var mm: Option<nat>
    var npages: nat
    var pages: seq<nat>
    var iova: nat

    constructor (npages: nat, pages: seq<nat>)
      ensures mm == None && iova == 0 && this.npages == npages && this.pages == pages
    {
      mm, iova := None, 0;
      this.npages, this.pages := npages, pages;
    }

    /** The buffer as a value, with the pages that the driver counts. */
    function View(): Buffer
      reads this
    {
      Buffer(if mm.Some? then mm.value else 0, iova, if npages <= |pages| then pages[..npages] else pages)
    }
  }

  class AneDevice {
    const shift: nat
    const hw: Hardware
    const window: Window
    const engine: Engine.TaskManager
    var nodes: map<nat, Range>
    var nextNode: nat
    var table: map<nat, nat>
    var bos: map<nat, Bo>
    var iommuLock: bool

    /** What holds between ioctls whatever their sizes. */
    ghost predicate Valid()
      reads this, bos.Values
    {
      4 <= shift < 32 && window.page == Pow2(shift) && !iommuLock &&
      Engine.TILE_COUNT <= hw.barCount <= ANE_MAX_TILE_COUNT &&
      (forall n | n in nodes :: n < nextNode) &&
      (forall h | h in bos :: h != 0 && bos[h].mm.Some? && bos[h].npages <= |bos[h].pages|) &&
      (forall g, h | g in bos && h in bos && bos[g] == bos[h] :: g == h)
    }

    ghost function Live(): map<nat, Buffer>
      reads this, bos.Values
    {
      map h | h in bos :: bos[h].View()
    }

    ghost function State(): Space
      reads this, bos.Values
    {
      Space(nodes, table, Live())
    }

    constructor (hw: Hardware, shift: nat, engine: Engine.TaskManager)
      requires 4 <= shift < 32 && Pow2(shift) <= hw.vmBase + hw.vmSize
      requires Engine.TILE_COUNT <= hw.barCount <= ANE_MAX_TILE_COUNT
      ensures Valid() && Init(State()) && this.hw == hw && this.shift == shift
      ensures window == DomainWindow(hw, Pow2(shift))
    {
      this.hw, this.shift, this.engine := hw, shift, engine;
      window := DomainWindow(hw, Pow2(shift));
      nodes, nextNode, table, bos := map[], 0, map[], map[];
      iommuLock := false;
    }

    // ----- Kernel services -----

    /** `drm_mm_insert_node_generic`: any hole that fits, or failure. */
    method InsertNode(node: nat, size: nat) returns (start: Option<nat>)
      requires window.page > 0
      modifies this`nodes
      ensures start.None? ==> nodes == old(nodes)
      ensures start.Some? ==> Hole(window, old(nodes), Range(start.value, size)) &&
                              nodes == old(nodes)[node := Range(start.value, size)]
    {
      var s: nat := *;
      if Hole(window, nodes, Range(s, size)) {
        nodes := nodes[node := Range(s, size)];
        start := Some(s);
      } else {
        start := None;
      }
    }

    method RemoveNode(node: nat)
      modifies this`nodes
      ensures nodes == old(nodes) - {node}
    {
      nodes := nodes - {node};
    }

    /** `iommu_map` of one page: refused where a page is mapped already, and it may fail. */
    method IommuMap(iova: nat, phys: nat) returns (err: int)
      modifies this`table
      ensures err < 0 ==> table == old(table)
      ensures err >= 0 ==> iova !in old(table) && table == old(table)[iova := phys]
    {
      if iova in table {
        return EEXIST;
      }
      if * {
        return ENOMEM;
      }
      table := table[iova := phys];
      err := 0;
    }

    method IommuUnmap(iova: nat)
      modifies this`table
      ensures table == old(table) - {iova}
    {
      table := table - {iova};
    }

    // ----- ane_iommu_map_pages, ane_iommu_unmap_pages -----

    /** Either the buffer is mapped page by page into a fresh hole, or nothing has changed.  A
        buffer whose size does not fit 32 bits is never mapped: page 2^(32 - shift) would go where
        page 0 is. */
    method MapPages(bo: Bo) returns (err: int)
      requires Valid() && bo !in bos.Values && bo.npages <= |bo.pages|
      modifies this`nodes, this`nextNode, this`table, this`iommuLock, bo`mm, bo`iova
      ensures !iommuLock && nextNode >= old(nextNode) && (forall n | n in nodes :: n < nextNode)
      ensures err < 0 ==> nodes == old(nodes) && table == old(table)
      ensures old(bo.mm).Some? ==> err == EBUSY
      ensures err >= 0 ==> bo.mm.Some? && bo.mm.value !in old(nodes) && Fits(window, bo.npages)
      ensures err >= 0 ==> Mapped(window, old(nodes), old(table), bo.View(), nodes, table)
    {
      hide Hole, Size32, EntriesOf, Pow2, Fits;
      if bo.mm.Some? {
        return EBUSY;
      }
      if * {
        return ENOMEM;
      }
      var node := nextNode;
      bo.mm, nextNode := Some(node), nextNode + 1;
      iommuLock := true;
      var start := InsertNode(node, Size32(window, bo.npages));
      if start.None? {
        iommuLock := false;
        return ENOSPC;
      }
      HoleIsNotEmpty(window, old(nodes), start.value, bo.npages);
      bo.iova := start.value;
      err := MapLoop(bo);
      if err >= 0 {
        OffsetFits(window, bo.npages, bo.npages);
      } else {
        RemoveNode(node);
      }
      iommuLock := false;
    }

    /** The mapping loop with its rollback. */
    method MapLoop(bo: Bo) returns (err: int)
      requires 4 <= shift < 32 && window.page == Pow2(shift) && bo.npages <= |bo.pages|
      requires Size32(window, bo.npages) > 0
      modifies this`table
      ensures err < 0 ==> table == old(table)
      ensures err >= 0 ==> Fits(window, bo.npages) && table == old(table) + EntriesOf(window, bo.View())
    {
      hide PageAt, Size32, Entries, Pow2;
      ghost var b := bo.View();
      EntriesZero(window, b);
      for i := 0 to bo.npages
        invariant i * window.page <= 0x1_0000_0000
        invariant table == old(table) + Entries(window, b.iova, b.pages, i)
        invariant forall j: nat | j < i :: PageAt(window, b.iova, j) !in old(table)
      {
        NextOffset(window, b, shift, i);
        err := IommuMap(bo.iova + Size32(window, i), bo.pages[i]);
        if err < 0 {
          Rollback(bo, i, old(table));
          return;
        }
      }
      FitsIfReserved(window, bo.npages);
      err := 0;
    }

    /** `while (i-- > 0) iommu_unmap(...)`. */
    method Rollback(bo: Bo, mapped: nat, ghost before: map<nat, nat>)
      requires 4 <= shift < 32 && window.page == Pow2(shift)
      requires mapped <= bo.npages <= |bo.pages| && mapped * window.page <= 0x1_0000_0000
      requires forall j: nat | j < mapped :: PageAt(window, bo.iova, j) !in before
      requires table == before + Entries(window, bo.iova, bo.View().pages, mapped)
      modifies this`table
      ensures table == before
    {
      hide PageAt, Size32, Entries, Pow2;
      ghost var b := bo.View();
      var i: nat := mapped;
      while i > 0
        invariant 0 <= i <= mapped && i * window.page <= 0x1_0000_0000
        invariant table == before + Entries(window, b.iova, b.pages, i)
      {
        MulDistributes(i - 1, 1, window.page);
        UnmapLast(window, before, b, i);
        NextOffset(window, b, shift, i - 1);
        i := i - 1;
        IommuUnmap(bo.iova + Size32(window, i));
      }
      EntriesZero(window, b);
    }

    /** Every address that the mapping loop computes, and the node, are released. */
    method UnmapPages(bo: Bo)
      requires bo.npages <= |bo.pages| && window.page > 0 && !iommuLock
      modifies this`nodes, this`table, this`iommuLock
      ensures !iommuLock
      ensures bo.mm.Some? ==> nodes == old(nodes) - {bo.mm.value}
      ensures bo.mm.Some? ==> table == old(table) - Reached(window, bo.iova, bo.npages)
      ensures bo.mm.None? ==> nodes == old(nodes) && table == old(table)
    {
      if bo.mm.None? {
        return;
      }
      hide Size32;
      iommuLock := true;
      for i := 0 to bo.npages
        invariant nodes == old(nodes)
        invariant table == old(table) - Reached(window, bo.iova, i)
      {
        assert Reached(window, bo.iova, i + 1) == Reached(window, bo.iova, i) + {bo.iova + Size32(window, i)};
        IommuUnmap(bo.iova + Size32(window, i));
      }
      RemoveNode(bo.mm.value);
      iommuLock := false;
      InvalidateTlb();
    }

    // ----- The ioctls -----

    /** A call that fails at any point leaves nothing behind; one that succeeds adds one buffer.
        A page count that does not fit fails; but the count has been cut to 32 bits before, so
        the new buffer holds the request only up to 4 GiB less one page. */
    method BoInit(size: u64, pad: u32) returns (err: int, handle: nat)
      requires Valid() && Consistent(window, State())
      modifies this`nodes, this`nextNode, this`table, this`iommuLock, this`bos
      ensures Valid() && Consistent(window, State())
      ensures pad != 0 ==> err == EINVAL
      ensures !Fits(window, PageCount(shift, size)) ==> err < 0
      ensures err < 0 ==> bos == old(bos) && State() == old(State())
      ensures err >= 0 ==> bos.Keys == old(bos.Keys) + {handle} && fresh(bos[handle])
      ensures err >= 0 ==> AddStep(window, old(State()), State(), handle, bos[handle].View())
      ensures err >= 0 ==> bos[handle].npages == PageCount(shift, size) &&
                           |bos[handle].pages| == ObjectPages(shift, size)
      ensures err >= 0 ==>
        (size <= bos[handle].npages * window.page <==> size <= 0x1_0000_0000 - window.page)
    {
      hide Consistent, ObjectPages, PageCount, AddStep, Pow2, Fits;
      handle := 0;
      if pad != 0 {
        return EINVAL, 0;
      }
      var bo := NewObject(size);
      if bo == null {
        return ENOMEM, 0;
      }
      assert Live() == old(Live());
      err, handle := Attach(bo);
      RequestFits(shift, size, window.start, window.end);
    }

    /** The memory object with its pages, or none if an allocation failed. */
    method NewObject(size: u64) returns (bo: Bo?)
      ensures bo != null ==> fresh(bo) && bo.mm == None && bo.npages <= |bo.pages|
      ensures bo != null ==> bo.npages == PageCount(shift, size) && |bo.pages| == ObjectPages(shift, size)
    {
      hide ObjectPages, PageCount;
      if * {
        return null;  // kzalloc, drm_gem_object_init or drm_gem_create_mmap_offset
      }
      var pages: seq<nat> := *;
      if |pages| != ObjectPages(shift, size) {
        return null;  // drm_gem_get_pages
      }
      CountAtMost(shift, size);
      bo := new Bo(PageCount(shift, size), pages);
    }

    /** Maps a new buffer and publishes it, or leaves everything as it was. */
    method Attach(bo: Bo) returns (err: int, handle: nat)
      requires Valid() && Consistent(window, State()) && bo !in bos.Values && bo.npages <= |bo.pages|
      modifies this`nodes, this`nextNode, this`table, this`iommuLock, this`bos, bo`mm, bo`iova
      ensures Valid() && Consistent(window, State())
      ensures err < 0 ==> bos == old(bos) && State() == old(State())
      ensures err >= 0 ==> bos == old(bos)[handle := bo] && Fits(window, bo.npages)
      ensures err >= 0 ==> AddStep(window, old(State()), State(), handle, bo.View())
    {
      hide Consistent, AddStep, Mapped, Pow2, Fits;
      ghost var before := State();
      handle := 0;
      err := MapPages(bo);
      assert Live() == before.live;
      if err >= 0 {
        err, handle := Publish(bo, before);
      }
    }

    /** `drm_gem_handle_create`; if it fails the mapping is undone. */
    method Publish(bo: Bo, ghost before: Space) returns (err: int, handle: nat)
      requires Valid() && bo !in bos.Values && bo.npages <= |bo.pages| && bo.mm.Some?
      requires Consistent(window, before) && before.live == Live() && bo.mm.value !in before.nodes
      requires Fits(window, bo.npages) && Mapped(window, before.nodes, before.table, bo.View(), nodes, table)
      modifies this`nodes, this`table, this`iommuLock, this`bos
      ensures Valid() && Consistent(window, State())
      ensures err < 0 ==> bos == old(bos) && State() == before
      ensures err >= 0 ==> bos == old(bos)[handle := bo] && AddStep(window, before, State(), handle, bo.View())
    {
      hide Consistent, Mapped, AddStep, Pow2, Fits, Entries;
      var h: nat := *;
      if h == 0 || h in bos {
        Withdraw(bo, before);
        return ENOMEM, 0;
      }
      err, handle := 0, h;
      Install(bo, h, before);
    }

    /** The new handle refers to the buffer. */
    method Install(bo: Bo, h: nat, ghost before: Space)
      requires Valid() && bo !in bos.Values && bo.npages <= |bo.pages| && bo.mm.Some? && h != 0 && h !in bos
      requires Consistent(window, before) && before.live == Live() && bo.mm.value !in before.nodes
      requires Fits(window, bo.npages) && Mapped(window, before.nodes, before.table, bo.View(), nodes, table)
      modifies this`bos
      ensures Valid() && Consistent(window, State())
      ensures bos == old(bos)[h := bo] && AddStep(window, before, State(), h, bo.View())
    {
      hide Consistent, Mapped, AddStep, Pow2, Fits, Entries;
      bos := bos[h := bo];
      assert bos[h] == bo && forall g | g in before.live :: g in bos && bos[g].View() == before.live[g];
      assert Live() == before.live[h := bo.View()];
      MappedIsAdd(window, before, State(), h, bo.View());
    }

    /** The `unmap` exit of `ane_bo_init`. */
    method Withdraw(bo: Bo, ghost before: Space)
      requires Valid() && bo !in bos.Values && bo.npages <= |bo.pages| && bo.mm.Some?
      requires Consistent(window, before) && before.live == Live() && bo.mm.value !in before.nodes
      requires Fits(window, bo.npages) && Mapped(window, before.nodes, before.table, bo.View(), nodes, table)
      modifies this`nodes, this`table, this`iommuLock
      ensures Valid() && State() == before
    {
      hide Consistent, Mapped, Pow2, Fits, Entries, Reached;
      UnmapUndoes(window, before, nodes, table, bo.View());
      ReachedIs(window, bo.View());
      UnmapPages(bo);
      assert Live() == before.live;
    }

    method BoFree(handle: u32, pad: u32) returns (err: int)
      requires Valid() && Consistent(window, State())
      modifies this`nodes, this`table, this`iommuLock, this`bos
      ensures Valid() && Consistent(window, State())
      ensures err == (if pad != 0 || handle !in old(bos) then EINVAL else 0)
      ensures err < 0 ==> State() == old(State())
      ensures err >= 0 ==> FreeStep(window, old(State()), State(), handle)
    {
      hide Consistent, Fits, EntriesOf, Pow2;
      if pad != 0 || handle !in bos {
        return EINVAL;
      }
      var bo := bos[handle];
      ghost var before := State();
      assert before.live[handle] == bo.View();
      LiveFits(window, before, handle);
      bos := bos - {handle};
      UnmapPages(bo);
      ReachedIs(window, bo.View());
      assert Live() == before.live - {handle};
      FreeKeepsConsistent(window, before, State(), handle);
      err := 0;
    }

    // ----- SUBMIT -----

    /** What submission demands of the buffer at index `bdx`. */
    predicate BarAccepted(args: SubmitArgs, bdx: nat)
      requires bdx < |args.handles|
      reads this, bos.Values
    {
      var handle := args.handles[bdx];
      handle in bos && bos[handle].iova != 0 &&
      (bdx == CMD_BUF_BDX ==> args.tskSize < Size32(window, bos[handle].npages)) &&
      (hw.id <= DRM_ANE_ID_H13 ==> bos[handle].iova < 0x1_0000_0000)
    }

    predicate Accepted(args: SubmitArgs)
      requires |args.handles| == ANE_MAX_TILE_COUNT && hw.barCount <= ANE_MAX_TILE_COUNT
      reads this, bos.Values
    {
      args.pad == 0 && args.tskSize != 0 && args.tdCount != 0 && args.tdSize != 0 &&
      args.handles[CMD_BUF_BDX] != 0 && args.handles[KRN_BUF_BDX] == 0 && args.btspHandle != 0 &&
      (forall bdx: nat | bdx < hw.barCount && args.handles[bdx] != 0 :: BarAccepted(args, bdx)) &&
      args.btspHandle in bos && (hw.id <= DRM_ANE_ID_H13 ==> bos[args.btspHandle].iova < 0x1_0000_0000)
    }

    /** The device address of the buffer with this handle, zero if there is none. */
    function AddressOf(handle: nat): nat
      reads this, bos.Values
    {
      if handle != 0 && handle in bos then bos[handle].iova else 0
    }

    /** The request is the declared one: every BAR with a handle is the address of its buffer, the
        kernel BAR follows the tasks in the command buffer, every other BAR is zero. */
    ghost predicate IsRequest(args: SubmitArgs, req: Engine.Request)
      requires |args.handles| == ANE_MAX_TILE_COUNT && hw.barCount <= ANE_MAX_TILE_COUNT && Accepted(args)
      reads this, bos.Values
    {
      req.qid == 4 && req.nid == ANE_FIFO_NID && req.td_size == args.tdSize && req.td_count == args.tdCount &&
      req.btsp_iova == bos[args.btspHandle].iova && |req.bar| == ANE_MAX_TILE_COUNT &&
      (forall bdx: nat | bdx < ANE_MAX_TILE_COUNT && bdx != KRN_BUF_BDX ::
        req.bar[bdx] == if bdx < hw.barCount then AddressOf(args.handles[bdx]) else 0) &&
      req.bar[KRN_BUF_BDX] == req.bar[CMD_BUF_BDX] + RoundUp16(args.tskSize)
    }

    /** The loop over the handles. */
    method FillBars(args: SubmitArgs, bar: array<nat>) returns (ok: bool)
      requires Valid() && |args.handles| == ANE_MAX_TILE_COUNT == bar.Length
      requires forall k | 0 <= k < bar.Length :: bar[k] == 0
      modifies bar
      ensures ok <==> forall k: nat | k < hw.barCount && args.handles[k] != 0 :: BarAccepted(args, k)
      ensures ok ==>
        forall k: nat | k < bar.Length :: bar[k] == if k < hw.barCount then AddressOf(args.handles[k]) else 0
    {
      for bdx := 0 to hw.barCount
        invariant forall k: nat | k < bdx && args.handles[k] != 0 :: BarAccepted(args, k)
        invariant forall k: nat | k < ANE_MAX_TILE_COUNT :: bar[k] == if k < bdx then AddressOf(args.handles[k]) else 0
      {
        if args.handles[bdx] != 0 {
          if !BarAccepted(args, bdx) {
            return false;
          }
          bar[bdx] := bos[args.handles[bdx]].iova;
        }
      }
      ok := true;
    }

    method BuildRequest(args: SubmitArgs) returns (req: Option<Engine.Request>)
      requires Valid() && |args.handles| == ANE_MAX_TILE_COUNT
      ensures req.Some? <==> Accepted(args)
      ensures req.Some? ==> IsRequest(args, req.value)
    {
      if args.pad != 0 || args.tskSize == 0 || args.tdCount == 0 || args.tdSize == 0 ||
         args.handles[CMD_BUF_BDX] == 0 || args.handles[KRN_BUF_BDX] != 0 || args.btspHandle == 0 {
        return None;
      }
      var bar := new nat[ANE_MAX_TILE_COUNT](_ => 0);
      var found := FillBars(args, bar);
      if !found {
        return None;
      }
      bar[KRN_BUF_BDX] := bar[CMD_BUF_BDX] + RoundUp16(args.tskSize);
      if args.btspHandle !in bos {
        return None;
      }
      var btsp := bos[args.btspHandle];
      if hw.id <= DRM_ANE_ID_H13 && btsp.iova >= 0x1_0000_0000 {
        return None;
      }
      req := Some(Engine.Request(4, ANE_FIFO_NID, args.tdSize, args.tdCount, btsp.iova, bar[..]));
    }

    /** What a submission must be, on H13: the sizes and the two buffers are given, the kernel
        buffer is not, every buffer that is given is live, and the tasks are smaller than the command
        buffer. */
    ghost predicate Admissible(args: SubmitArgs)
      requires |args.handles| == ANE_MAX_TILE_COUNT
      reads this, bos.Values
    {
      args.pad == 0 && args.tskSize != 0 && args.tdCount != 0 && args.tdSize != 0 &&
      args.handles[0] != 0 && args.handles[1] == 0 && args.btspHandle != 0 && args.btspHandle in bos &&
      (forall bdx | 0 <= bdx < 32 && args.handles[bdx] != 0 :: args.handles[bdx] in bos) &&
      args.tskSize < RangeOf(window, bos[args.handles[0]].View()).size
    }

    /** The device is an H13 in a state that buffer ioctls lead to. */
    ghost predicate IsH13()
      reads this, bos.Values
    {
      Consistent(window, State()) && hw == H13 && Pow2(shift) <= H13.vmSize && window == DomainWindow(H13, Pow2(shift))
    }

    /** A rejected submission touches no register; an accepted one leaves its whole request in the
        registers of queue 4 and in the task manager, whether or not the execution succeeds, and
        returns what the poll of the execution saw. */
    method Submit(args: SubmitArgs) returns (err: int)
      requires Valid() && engine.Valid() && !engine.engineLock && |args.handles| == ANE_MAX_TILE_COUNT
      modifies engine
      ensures engine.Valid() && !engine.engineLock
      ensures IsH13() ==> (Accepted(args) <==> Admissible(args))
      ensures !Accepted(args) ==> err == EINVAL && engine.regs == old(engine.regs)
      ensures Accepted(args) ==> err == if engine.sawIdle then 0 else -110
      ensures Accepted(args) ==> exists req: Engine.Request ::
        IsRequest(args, req) && req.Valid() && Protocol.Coherent(engine.regs, req) &&
        Leaves(old(engine.regs), engine.regs, req)
    {
      hide Protocol.Coherent, Engine.Run, Engine.Complete, IsRequest, Leaves, IsH13, Admissible, Accepted;
      if IsH13() {
        AdmissibleIff(this, args);
      }
      var built := BuildRequest(args);
      if built.None? {
        return EINVAL;
      }
      var req := built.value;
      assert req.Valid() by { RequestShape(args, req); }
      ghost var regs := engine.regs;
      engine.engineLock := true;
      err := engine.TmEnqueue(req);
      err := engine.TmExecute(req);
      engine.engineLock := false;
      assert engine.Valid();
      Protocol.SubmissionIsCoherent(req, regs);
      LeavesAll(req, regs);
    }

    lemma RequestShape(args: SubmitArgs, req: Engine.Request)
      requires |args.handles| == ANE_MAX_TILE_COUNT && hw.barCount <= ANE_MAX_TILE_COUNT
      requires Accepted(args) && IsRequest(args, req)
      ensures req.Valid()
    {
    }

    /** `ane_iommu_invalidate_tlb`: takes the lock again. */
    method InvalidateTlb()
      requires !iommuLock
      modifies this`iommuLock
      ensures !iommuLock
    {
      iommuLock := true;
      iommuLock := false;
    }
  }

  /** The effect of mapping a whole buffer into a hole. */
  /** Every register has the value that a submission leaves in it. */
  ghost predicate Leaves(before: Engine.Registers, after: Engine.Registers, req: Engine.Request) {
    Engine.Complete(before) && Engine.Complete(after) && req.Valid() &&
    forall r: Engine.Reg | Engine.Exists(r) :: Engine.Get(after, r) == RegisterValues.Submitted(before, req, r)
  }

  lemma LeavesAll(req: Engine.Request, regs: Engine.Registers)
    requires Engine.Complete(regs) && req.Valid()
    ensures Leaves(regs, RegisterValues.AfterSubmission(req, regs), req)
  {
    hide Engine.Get, Engine.Complete, RegisterValues.Submitted, RegisterValues.AfterSubmission;
    forall r: Engine.Reg | Engine.Exists(r)
      ensures Engine.Get(RegisterValues.AfterSubmission(req, regs), r) == RegisterValues.Submitted(regs, req, r)
    {
      RegisterValues.SubmissionLeaves(req, regs, r);
    }
  }

  /** On H13 the checks of a submission accept exactly what is admissible: that addresses are not
      zero and fit 32 bits follows from the window. */
  lemma AdmissibleIff(d: AneDevice, args: SubmitArgs)
    requires d.Valid() && d.IsH13() && |args.handles| == ANE_MAX_TILE_COUNT
    ensures d.Accepted(args) <==> d.Admissible(args)
  {
    hide Pow2, Consistent, Size32, RangeOf;
    forall h | h in d.bos
      ensures 0 < d.bos[h].iova < 0x1_0000_0000
      ensures RangeOf(d.window, d.bos[h].View()).size == Size32(d.window, d.bos[h].npages)
    {
      AddressIsLow(d, h);
      SizeBy16(d, h);
    }
    if d.Accepted(args) {
      assert d.BarAccepted(args, CMD_BUF_BDX);
      forall bdx | 0 <= bdx < 32 && args.handles[bdx] != 0 ensures args.handles[bdx] in d.bos {
        assert d.BarAccepted(args, bdx);
      }
    }
  }

  lemma AddressIsLow(d: AneDevice, h: nat)
    requires d.Valid() && d.IsH13() && h in d.bos
    ensures 0 < d.bos[h].iova < 0x1_0000_0000
  {
    hide Pow2, Consistent;
    assert d.bos[h].View() == d.State().live[h];
    LivePlaced(d.window, d.State(), h);
  }

  /** What an accepted submission leaves in three registers, in numbers: queue 4 is pushed with
      priority 5, its id is that of the library, its status is 0. */
  lemma SubmittedNumbers(d: AneDevice, args: SubmitArgs, req: Engine.Request, before: Engine.Registers)
    requires |args.handles| == ANE_MAX_TILE_COUNT && d.hw.barCount <= ANE_MAX_TILE_COUNT && d.Accepted(args)
    requires d.IsRequest(args, req) && Engine.Complete(before) && req.Valid()
    ensures RegisterValues.Submitted(before, req, Engine.TmPush) == 0x405
    ensures RegisterValues.Submitted(before, req, Engine.TqNid1(4)) == 0x4001
    ensures RegisterValues.Submitted(before, req, Engine.TqStatus(4)) == 0
  {
    hide Engine.Complete, Engine.Get;
  }

  ghost predicate Mapped(w: Window, nodes: map<nat, Range>, table: map<nat, nat>, b: Buffer,
                         nodes': map<nat, Range>, table': map<nat, nat>)
    requires w.page > 0
  {
    Hole(w, nodes, RangeOf(w, b)) && nodes' == nodes[b.node := RangeOf(w, b)] && table' == table + EntriesOf(w, b)
  }

  lemma MappedIsAdd(w: Window, s: Space, s': Space, h: nat, b: Buffer)
    requires w.page > 0 && Consistent(w, s) && h !in s.live && b.node !in s.nodes && Fits(w, |b.pages|)
    requires Mapped(w, s.nodes, s.table, b, s'.nodes, s'.table) && s'.live == s.live[h := b]
    ensures AddStep(w, s, s', h, b) && Consistent(w, s')
  {
    hide Consistent, Hole, RangeOf, EntriesOf;
    AddKeepsConsistent(w, s, s', h, b);
  }

  /** Unmapping a buffer that was just mapped restores nodes and table. */
  lemma UnmapUndoes(w: Window, before: Space, nodes': map<nat, Range>, table': map<nat, nat>, b: Buffer)
    requires w.page > 0 && Consistent(w, before) && b.node !in before.nodes
    requires Mapped(w, before.nodes, before.table, b, nodes', table')
    ensures nodes' - {b.node} == before.nodes && table' - EntriesOf(w, b).Keys == before.table
  {
    hide Entries, PageAt, Consistent, Hole;
    forall key | key in before.table ensures key !in EntriesOf(w, b) {
      EntriesAre(w, b.iova, b.pages, |b.pages|, key);
      if i: nat :| i < |b.pages| && key == PageAt(w, b.iova, i) {
        HoleIsUnmapped(w, before, b, i);
      }
    }
  }

  lemma LiveFits(w: Window, s: Space, h: nat)
    requires Consistent(w, s) && h in s.live
    ensures w.page > 0 && Fits(w, |s.live[h].pages|)
  {
  }

  lemma LivePlaced(w: Window, s: Space, h: nat)
    requires Consistent(w, s) && h in s.live
    ensures Placed(w, RangeOf(w, s.live[h]))
  {
  }

  lemma EntriesZero(w: Window, b: Buffer)
    ensures Entries(w, b.iova, b.pages, 0) == map[]
  {
  }

  /** The next offset is the real one, or it is zero and the page there is mapped already. */
  lemma NextOffset(w: Window, b: Buffer, shift: nat, i: nat)
    requires shift < 32 && w.page == Pow2(shift) && i < |b.pages| && i * w.page <= 0x1_0000_0000
    ensures var at, entries := b.iova + Size32(w, i), Entries(w, b.iova, b.pages, i);
      if i * w.page < 0x1_0000_0000 then
        (i + 1) * w.page <= 0x1_0000_0000 && at == PageAt(w, b.iova, i) &&
        Entries(w, b.iova, b.pages, i + 1) == entries[at := b.pages[i]]
      else at in entries
  {
    hide Pow2;
    if i * w.page < 0x1_0000_0000 {
      OffsetBelow(w, shift, i);
    } else {
      assert PageAt(w, b.iova, 0) == b.iova + Size32(w, i);
      EntriesAre(w, b.iova, b.pages, i, PageAt(w, b.iova, 0));
    }
  }

  lemma HoleIsNotEmpty(w: Window, nodes: map<nat, Range>, start: nat, npages: nat)
    requires w.page > 0 && Hole(w, nodes, Range(start, Size32(w, npages)))
    ensures Size32(w, npages) > 0
  {
  }

  lemma FitsIfReserved(w: Window, npages: nat)
    requires npages * w.page <= 0x1_0000_0000 && Size32(w, npages) > 0
    ensures Fits(w, npages)
  {
  }

  // ----- Addresses on H13 -----

  lemma AlignedBy16(x: nat, page: nat, k: nat)
    requires page == 16 * k && k > 0 && x % page == 0
    ensures x % 16 == 0
  {
    var q := x / page;
    assert x == page * q;
    assert page * q == 16 * (k * q);
  }

  lemma PageIsMultipleOf16(shift: nat)
    requires shift >= 4
    ensures Pow2(shift) == 16 * Pow2(shift - 4)
  {
    Pow2Next(shift - 4);
    Pow2Next(shift - 2);
  }

  /** The kernel BAR of a command buffer: aligned, after the tasks, and inside the buffer. */
  lemma KernelBar(w: Window, b: Buffer, shift: nat, tskSize: nat)
    requires shift >= 4 && w.page == Pow2(shift) && b.iova % w.page == 0
    requires 0 < tskSize < |b.pages| * w.page
    ensures var bar := b.iova + RoundUp16(tskSize);
      bar % 16 == 0 && b.iova + tskSize <= bar <= b.iova + RangeOf(w, b).size
  {
    hide Pow2, RoundUp16;
    PageIsMultipleOf16(shift);
    var k, n := Pow2(shift - 4), |b.pages|;
    AlignedBy16(b.iova, w.page, k);
    MulBy16(n, k);
    RoundUpBelow(tskSize, n * k);
  }

  lemma MulBy16(n: nat, k: nat)
    ensures n * (16 * k) == 16 * (n * k)
  {
  }

  lemma RoundUpBelow(x: nat, m: nat)
    requires 0 < x < 16 * m
    ensures x <= RoundUp16(x) <= 16 * m && RoundUp16(x) % 16 == 0
  {
  }

  /** On H13 every address of an accepted request fits the 32-bit registers: the BARs, the
      bootstrap address, and the kernel BAR that is derived and never checked; that one is
      16-byte aligned, after the tasks, and at most the end of the command buffer. */
  lemma H13NothingIsLost(d: AneDevice, args: SubmitArgs, req: Engine.Request)
    requires d.Valid() && Consistent(d.window, d.State())
    requires d.hw == H13 && Pow2(d.shift) <= H13.vmSize && d.window == DomainWindow(H13, Pow2(d.shift))
    requires |args.handles| == ANE_MAX_TILE_COUNT && d.Accepted(args) && d.IsRequest(args, req)
    ensures forall bdx: nat | bdx < Engine.TILE_COUNT :: Engine.Lower32(req.bar[bdx]) == req.bar[bdx]
    ensures Engine.Lower32(req.btsp_iova) == req.btsp_iova
    ensures req.bar[KRN_BUF_BDX] % 16 == 0
    ensures var cmd := d.bos[args.handles[CMD_BUF_BDX]].View();
      cmd.iova + args.tskSize <= req.bar[KRN_BUF_BDX] <= cmd.iova + RangeOf(d.window, cmd).size <= d.window.end
  {
    hide Pow2, RoundUp16, Engine.Lower32;
    assert d.BarAccepted(args, CMD_BUF_BDX);
    var h := args.handles[CMD_BUF_BDX];
    var cmd := d.bos[h].View();
    assert cmd == d.State().live[h];
    CommandBuffer(d, h, args.tskSize);
    forall bdx: nat | bdx < Engine.TILE_COUNT && bdx != KRN_BUF_BDX
      ensures req.bar[bdx] < 0x1_0000_0000
    {
      assert args.handles[bdx] != 0 ==> d.BarAccepted(args, bdx);
    }
    forall bdx: nat | bdx < Engine.TILE_COUNT ensures Engine.Lower32(req.bar[bdx]) == req.bar[bdx] {
      Lower32Same(req.bar[bdx]);
    }
    Lower32Same(req.btsp_iova);
  }

  lemma Lower32Same(x: nat)
    ensures x < 0x1_0000_0000 ==> Engine.Lower32(x) == x
  {
  }

  lemma CommandBuffer(d: AneDevice, h: nat, tskSize: nat)
    requires d.Valid() && Consistent(d.window, d.State()) && h in d.bos
    requires 0 < tskSize < Size32(d.window, d.bos[h].npages)
    ensures var cmd := d.bos[h].View();
      var bar := cmd.iova + RoundUp16(tskSize);
      bar % 16 == 0 && cmd.iova + tskSize <= bar <= cmd.iova + RangeOf(d.window, cmd).size <= d.window.end
  {
    hide Pow2, RoundUp16;
    var cmd := d.bos[h].View();
    assert cmd == d.State().live[h];
    LiveFits(d.window, d.State(), h);
    OffsetFits(d.window, |cmd.pages|, |cmd.pages|);
    assert Placed(d.window, RangeOf(d.window, cmd));
    KernelBar(d.window, cmd, d.shift, tskSize);
  }

  // ----- Addresses of a request and the page table -----

  /** Address `addr` lies in page `i` of the buffer, and the page table maps that page. */
  predicate InPage(w: Window, table: map<nat, nat>, b: Buffer, i: nat, addr: nat) {
    i < |b.pages| && PageAt(w, b.iova, i) <= addr < PageAt(w, b.iova, i) + w.page &&
    PageAt(w, b.iova, i) in table && table[PageAt(w, b.iova, i)] == b.pages[i]
  }

  ghost predicate OnMappedPage(w: Window, table: map<nat, nat>, b: Buffer, addr: nat) {
    exists i: nat :: InPage(w, table, b, i, addr)
  }

  /** Between ioctls every page of a live buffer is in the page table, at its own address. */
  lemma PageIsMapped(d: AneDevice, h: nat, i: nat)
    requires d.Valid() && Consistent(d.window, d.State()) && h in d.bos && i < d.bos[h].npages
    ensures PageAt(d.window, d.bos[h].iova, i) in d.table
    ensures d.table[PageAt(d.window, d.bos[h].iova, i)] == d.bos[h].pages[i]
  {
    hide Pow2, PageAt;
    var at := PageAt(d.window, d.bos[h].iova, i);
    assert PageIs(d.window, d.State().live[h], i, at, d.bos[h].pages[i]);
    assert Translates(d.window, d.State().live, at, d.bos[h].pages[i]);
  }

  /** So an address is on a mapped page of a live buffer exactly if it is in the buffer's range. */
  lemma OnMappedPageIff(d: AneDevice, h: nat, addr: nat)
    requires d.Valid() && Consistent(d.window, d.State()) && h in d.bos
    ensures var b := d.bos[h].View();
      OnMappedPage(d.window, d.table, b, addr) <==> b.iova <= addr < b.iova + RangeOf(d.window, b).size
  {
    hide Pow2, Consistent;
    var w, b := d.window, d.bos[h].View();
    if i: nat :| InPage(w, d.table, b, i, addr) {
      PageInRange(w, b, i);
    }
    if b.iova <= addr < b.iova + RangeOf(w, b).size {
      var i := Div(addr - b.iova, w.page);
      if i >= |b.pages| {
        MulMono(|b.pages|, i, w.page);
      }
      PageIsMapped(d, h, i);
      assert InPage(w, d.table, b, i, addr);
    }
  }

  /** Between ioctls, every buffer that an accepted request names is mapped: page `i` of it is
      found in the page table at its BAR plus `i` pages. */
  lemma BarsAreMapped(d: AneDevice, args: SubmitArgs, req: Engine.Request, bdx: nat, i: nat)
    requires d.Valid() && Consistent(d.window, d.State())
    requires |args.handles| == ANE_MAX_TILE_COUNT && d.Accepted(args) && d.IsRequest(args, req)
    requires bdx < d.hw.barCount && args.handles[bdx] != 0 && args.handles[bdx] in d.bos
    requires i < d.bos[args.handles[bdx]].npages
    ensures PageAt(d.window, req.bar[bdx], i) in d.table
    ensures d.table[PageAt(d.window, req.bar[bdx], i)] == d.bos[args.handles[bdx]].pages[i]
  {
    hide Pow2, PageAt, RoundUp16, Consistent;
    assert bdx != KRN_BUF_BDX;
    PageIsMapped(d, args.handles[bdx], i);
  }

  /** The same for the bootstrap address. */
  lemma BootstrapIsMapped(d: AneDevice, args: SubmitArgs, req: Engine.Request, i: nat)
    requires d.Valid() && Consistent(d.window, d.State())
    requires |args.handles| == ANE_MAX_TILE_COUNT && d.Accepted(args) && d.IsRequest(args, req)
    requires i < d.bos[args.btspHandle].npages
    ensures PageAt(d.window, req.btsp_iova, i) in d.table
    ensures d.table[PageAt(d.window, req.btsp_iova, i)] == d.bos[args.btspHandle].pages[i]
  {
    hide Pow2, PageAt, RoundUp16, Consistent;
    PageIsMapped(d, args.btspHandle, i);
  }

  /** The kernel BAR is on a mapped page of the command buffer exactly if the tasks leave at least
      sixteen bytes of the buffer; otherwise it is the first address after the buffer. */
  lemma KernelBarMappedIff(d: AneDevice, args: SubmitArgs, req: Engine.Request)
    requires d.Valid() && Consistent(d.window, d.State())
    requires |args.handles| == ANE_MAX_TILE_COUNT && d.Accepted(args) && d.IsRequest(args, req)
    ensures var cmd := d.bos[args.handles[CMD_BUF_BDX]].View();
      var size := RangeOf(d.window, cmd).size;
      (req.bar[KRN_BUF_BDX] < cmd.iova + size <==> args.tskSize <= size - 16) &&
      (OnMappedPage(d.window, d.table, cmd, req.bar[KRN_BUF_BDX]) <==> args.tskSize <= size - 16) &&
      (args.tskSize > size - 16 ==> req.bar[KRN_BUF_BDX] == cmd.iova + size)
  {
    hide Pow2, RoundUp16, OnMappedPage, Consistent;
    assert d.BarAccepted(args, CMD_BUF_BDX);
    var h := args.handles[CMD_BUF_BDX];
    var cmd := d.bos[h].View();
    var size := RangeOf(d.window, cmd).size;
    CommandBuffer(d, h, args.tskSize);
    SizeBy16(d, h);
    RoundUpIff(args.tskSize, size);
    OnMappedPageIff(d, h, req.bar[KRN_BUF_BDX]);
  }

  /** The range of a live buffer is a whole number of sixteens, and as long as it is computed. */
  lemma SizeBy16(d: AneDevice, h: nat)
    requires d.Valid() && Consistent(d.window, d.State()) && h in d.bos
    ensures var size := RangeOf(d.window, d.bos[h].View()).size;
      size % 16 == 0 && size == Size32(d.window, d.bos[h].npages) && 16 <= size < 0x1_0000_0000
  {
    hide Pow2, Consistent, Size32;
    var b := d.bos[h].View();
    assert b == d.State().live[h];
    LiveFits(d.window, d.State(), h);
    LivePlaced(d.window, d.State(), h);
    OffsetFits(d.window, |b.pages|, |b.pages|);
    PageIsMultipleOf16(d.shift);
    MulBy16(|b.pages|, Pow2(d.shift - 4));
  }

  lemma RoundUpIff(x: nat, size: nat)
    requires size % 16 == 0 && x < size
    ensures RoundUp16(x) < size <==> x <= size - 16
    ensures x > size - 16 ==> RoundUp16(x) == size
  {
  }

  /** It does happen: on H13, with one live buffer, a request whose tasks fill that buffer but for
      one byte is accepted, and its kernel BAR is on no page that is mapped at all. */
  lemma KernelBarUnmapped(d: AneDevice, h: u32) returns (args: SubmitArgs, req: Engine.Request)
    requires d.Valid() && Consistent(d.window, d.State()) && d.bos.Keys == {h}
    requires d.hw == H13 && Pow2(d.shift) <= H13.vmSize && d.window == DomainWindow(H13, Pow2(d.shift))
    ensures |args.handles| == ANE_MAX_TILE_COUNT && d.Accepted(args) && d.IsRequest(args, req)
    ensures args.handles[CMD_BUF_BDX] == h
    ensures args.tskSize == RangeOf(d.window, d.bos[h].View()).size - 1
    ensures forall key | key in d.table :: !(key <= req.bar[KRN_BUF_BDX] < key + d.window.page)
  {
    hide Pow2, RoundUp16, PageAt, Consistent;
    var w, b := d.window, d.bos[h].View();
    var size := RangeOf(w, b).size;
    SizeBy16(d, h);
    assert b == d.State().live[h];
    LivePlaced(w, d.State(), h);
    var handles: seq<u32> := seq(ANE_MAX_TILE_COUNT, i => if i == CMD_BUF_BDX then h else 0);
    args := SubmitArgs(size - 1, 1, 1, handles, h, 0);
    var bar := b.iova + RoundUp16(size - 1);
    req := Engine.Request(4, ANE_FIFO_NID, 1, 1, b.iova,
                          seq(ANE_MAX_TILE_COUNT, i => if i == CMD_BUF_BDX then b.iova
                                                       else if i == KRN_BUF_BDX then bar else 0));
    RoundUpIff(size - 1, size);
    forall key | key in d.table ensures key + w.page <= bar {
      OnlyBufferEnds(d, h, key);
    }
  }

  lemma OnlyBufferEnds(d: AneDevice, h: nat, key: nat)
    requires d.Valid() && Consistent(d.window, d.State()) && d.bos.Keys == {h} && key in d.table
    ensures key + d.window.page <= d.bos[h].iova + RangeOf(d.window, d.bos[h].View()).size
  {
    hide Pow2, PageAt;
    assert Translates(d.window, d.State().live, key, d.table[key]);
    var g, i: nat :| g in d.State().live && PageIs(d.window, d.State().live[g], i, key, d.table[key]);
    PageInRange(d.window, d.bos[h].View(), i);
  }

  // ----- The window -----

  /** Where the window ends as written: beyond the limit computed for it exactly when the base is
      not zero; on H13 still below 2^32. */
  lemma WindowEnd(hw: Hardware, page: nat)
    requires 0 < page <= hw.vmBase + hw.vmSize
    ensures DomainWindow(hw, page) == Window(hw.vmBase, 2 * hw.vmBase + hw.vmSize - page, page)
    ensures page <= 0x4000 ==> DomainWindow(H13, page) == Window(0x4000, 0xE000_8000 - page, page)
    ensures var limit := hw.vmBase + hw.vmSize - page;
      DomainWindow(hw, page).end > limit <==> hw.vmBase > 0
    ensures hw == H13 ==> DomainWindow(hw, page).end < 0x1_0000_0000
  {
  }

  // ----- Request sizes -----

  /** The pages of a request hold it, and their size fits, exactly if it is at most 4 GiB less one
      page; then no page is wasted. */
  lemma RequestFits(shift: nat, size: u64, start: nat, end: nat)
    requires shift < 32
    ensures var w, n := Window(start, end, Pow2(shift)), PageCount(shift, size);
      (Fits(w, n) && size <= n * w.page <==> size <= 0x1_0000_0000 - w.page) &&
      (size <= 0x1_0000_0000 - w.page ==> n * w.page < size + w.page)
  {
    hide Low, Shr, Pow2, ObjectPages, PageCount;
    var w, n := Window(start, end, Pow2(shift)), PageCount(shift, size);
    if size <= 0x1_0000_0000 - w.page {
      PagesOfRequest(shift, size);
    } else if Fits(w, n) {
      OffsetBelow(w, shift, n);
      MulDistributes(n, 1, w.page);
    }
  }

  lemma PagesOfRequest(shift: nat, size: u64)
    requires shift < 32 && size + Pow2(shift) <= 0x1_0000_0000
    ensures size <= PageCount(shift, size) * Pow2(shift) < size + Pow2(shift)
  {
    hide Low, Shr, Pow2;
    var p := Pow2(shift);
    var x := size + p - 1;
    var n := Shr(x, shift);
    Split(x, shift);
    Powers();
    LowSmall(n * p, 64);
    Join(n, 0, shift);
    assert n < Pow2(32) by {
      MulMono(1, p, n);
    }
    LowSmall(n, 32);
  }

  lemma CountAtMost(shift: nat, size: u64)
    ensures PageCount(shift, size) <= ObjectPages(shift, size)
  {
    hide ObjectPages, Low, Shr;
    Split(ObjectPages(shift, size), 32);
  }

  /** For example, 64 TiB and one page of 16 KiB: an object of 2^32 + 1 pages, counted as one,
      which does fit. */
  lemma TruncatedExample()
    ensures ObjectPages(14, 0x4000_0000_4000) == 0x1_0000_0001
    ensures PageCount(14, 0x4000_0000_4000) == 1 && Fits(Window(0, 0, Pow2(14)), 1)
  {
    hide Low, Shr, Pow2;
    Powers();
    Join(0x1_0000_0001, 0x3FFF, 14);
    LowSmall(0x1_0000_0001 * 0x4000, 64);
    Join(0x1_0000_0001, 0, 14);
    Join(1, 1, 32);
  }
}
